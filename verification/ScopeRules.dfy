/** The scope and capability matchers of document.rs, and the attenuation rules of mint.rs. */
module ScopeRules {
  import opened Wrappers
  import opened Wire

  const SCOPE_KIND_PREFIX := "prefix"

  predicate IsSeparator(c: char) {
    c == '/' || c == '.'
  }

  // ------------------------------------------------------------------
  // Prefix containment
  // ------------------------------------------------------------------

  predicate StartsWith(s: string, prefix: string) {
    prefix <= s
  }

  predicate PrefixContains(prefix: string, resource: string) {
    if prefix == "" then true
    else if resource == prefix then true
    else if IsSeparator(prefix[|prefix| - 1]) then StartsWith(resource, prefix)
    else StartsWith(resource, prefix + "/") || StartsWith(resource, prefix + ".")
  }

  /** Length of the first token: a separator on its own, or a maximal run without one. */
  function TokenLength(s: string): (n: nat)
    requires s != ""
    ensures 0 < n <= |s|
    ensures IsSeparator(s[0]) ==> n == 1
    ensures !IsSeparator(s[0]) ==> forall k | 0 <= k < n :: !IsSeparator(s[k])
    ensures !IsSeparator(s[0]) && n < |s| ==> IsSeparator(s[n])
  {
    if |s| == 1 || IsSeparator(s[0]) || IsSeparator(s[1]) then 1 else 1 + TokenLength(s[1..])
  }

  function Tokens(s: string): seq<string>
    decreases |s|
  {
    if s == "" then [] else [s[..TokenLength(s)]] + Tokens(s[TokenLength(s)..])
  }

  function Joined(tokens: seq<string>): string {
    if tokens == [] then "" else tokens[0] + Joined(tokens[1..])
  }

  predicate IsToken(t: string) {
    t != "" && (|t| > 1 ==> forall k | 0 <= k < |t| :: !IsSeparator(t[k]))
  }

  predicate AreApart(t: string, next: string) {
    t != "" && next != "" && (IsSeparator(t[0]) || IsSeparator(next[0]))
  }

  predicate AreTokens(tokens: seq<string>) {
    tokens != [] ==>
      && IsToken(tokens[0])
      && (|tokens| > 1 ==> AreApart(tokens[0], tokens[1]))
      && AreTokens(tokens[1..])
  }

  lemma FirstToken(s: string)
    requires s != ""
    ensures var n := TokenLength(s);
            && IsToken(s[..n])
            && (n < |s| ==> IsSeparator(s[0]) || IsSeparator(s[n]))
            && Tokens(s) != [] && Tokens(s)[0] == s[..n] && Tokens(s)[1..] == Tokens(s[n..])
  {
    hide TokenLength;
  }

  /** Tokens spell the string, each is a separator or holds none, and no two runs stand side by side. */
  lemma {:induction false} TokensSpellTheString(s: string)
    ensures Joined(Tokens(s)) == s && AreTokens(Tokens(s))
    decreases |s|
  {
    hide TokenLength, Tokens, IsToken;
    if s == "" {
      NoTokens();
    } else {
      var n := TokenLength(s);
      FirstToken(s);
      TokensSpellTheString(s[n..]);
      assert s[..n] + s[n..] == s;
      if n < |s| {
        FirstToken(s[n..]);
      } else {
        NoTokens();
      }
    }
  }

  lemma NoTokens()
    ensures Tokens("") == []
  {
  }

  /** The prefix rule, read on the two strings side by side. */
  predicate EndsAtBoundary(p: string, r: string) {
    p <= r && (p == "" || p == r || IsSeparator(p[|p| - 1]) || IsSeparator(r[|p|]))
  }

  lemma PrefixRuleByPosition(p: string, r: string)
    ensures PrefixContains(p, r) <==> EndsAtBoundary(p, r)
  {
  }

  /** In front of a token boundary, a common token decides nothing. */
  lemma PastCommonToken(t: string, p: string, r: string)
    requires t != ""
    requires p == "" && r != "" ==> IsSeparator(t[|t| - 1]) || IsSeparator(r[0])
    ensures EndsAtBoundary(t + p, t + r) <==> EndsAtBoundary(p, r)
  {
    if p <= r {
      assert t + p <= t + r;
      assert (t + p)[|t + p| - 1] == if p == "" then t[|t| - 1] else p[|p| - 1];
      assert |p| < |r| ==> (t + r)[|t + p|] == r[|p|];
    }
    if t + p <= t + r {
      assert p == (t + p)[|t|..] <= (t + r)[|t|..] == r;
    }
  }

  lemma SameFirstToken(p: string, r: string)
    requires p != "" && EndsAtBoundary(p, r)
    ensures TokenLength(p) == TokenLength(r)
  {
  }

  lemma BoundaryByToken(p: string, r: string)
    requires p != "" && r != ""
    ensures EndsAtBoundary(p, r) <==>
            p[..TokenLength(p)] == r[..TokenLength(r)]
            && EndsAtBoundary(p[TokenLength(p)..], r[TokenLength(r)..])
  {
    hide TokenLength;
    var n, m := TokenLength(p), TokenLength(r);
    if EndsAtBoundary(p, r) {
      SameFirstToken(p, r);
    }
    if p[..n] == r[..m] {
      assert n == |p[..n]| == |r[..m]| == m;
      assert p == p[..n] + p[n..] && r == p[..n] + r[n..];
      PastCommonToken(p[..n], p[n..], r[n..]);
    }
  }

  lemma TokensByToken(p: string, r: string)
    requires p != "" && r != ""
    ensures Tokens(p) <= Tokens(r) <==>
            p[..TokenLength(p)] == r[..TokenLength(r)]
            && Tokens(p[TokenLength(p)..]) <= Tokens(r[TokenLength(r)..])
  {
    var tp, tr := Tokens(p), Tokens(r);
    assert tp[1..] == Tokens(p[TokenLength(p)..]) && tr[1..] == Tokens(r[TokenLength(r)..]);
    assert tp == [tp[0]] + tp[1..] && tr == [tr[0]] + tr[1..];
  }

  lemma {:induction false} TokenPrefixIsBoundary(p: string, r: string)
    ensures Tokens(p) <= Tokens(r) <==> EndsAtBoundary(p, r)
    decreases |p|
  {
    if p != "" && r != "" {
      TokensByToken(p, r);
      BoundaryByToken(p, r);
      TokenPrefixIsBoundary(p[TokenLength(p)..], r[TokenLength(r)..]);
    }
  }

  /** Containment is exactly the prefix order on token lists. */
  lemma PrefixContainsIsTokenPrefix(p: string, r: string)
    ensures PrefixContains(p, r) <==> Tokens(p) <= Tokens(r)
  {
    PrefixRuleByPosition(p, r);
    TokenPrefixIsBoundary(p, r);
  }

  /** A partial order on paths that is never wider than bare prefixing. */
  lemma PrefixContainsIsAnOrder(p: string, q: string, r: string)
    ensures PrefixContains(p, p)
    ensures PrefixContains(p, q) && PrefixContains(q, r) ==> PrefixContains(p, r)
    ensures PrefixContains(p, q) && PrefixContains(q, p) ==> p == q
    ensures PrefixContains(p, r) ==> StartsWith(r, p)
  {
  }

  // ------------------------------------------------------------------
  // Boundaries
  // ------------------------------------------------------------------

  /** None when the entry cannot be evaluated at all. */
  function EntryContains(entry: ScopeEntry, resource: string): Option<bool> {
    if entry.kind == SCOPE_KIND_PREFIX && entry.value.Str?
    then Some(PrefixContains(entry.value.s, resource))
    else None
  }

  function EntryClaimedResource(entry: ScopeEntry): Option<string> {
    if entry.kind == SCOPE_KIND_PREFIX && entry.value.Str? then Some(entry.value.s) else None
  }

  predicate BoundaryIsEvaluable(boundary: Scope) {
    forall k | 0 <= k < |boundary| :: EntryContains(boundary[k], "").Some?
  }

  /** A boundary that can be read in full, and is empty or has an entry for the resource. */
  predicate ScopeContains(boundary: Scope, resource: string) {
    && BoundaryIsEvaluable(boundary)
    && (boundary == []
        || exists k | 0 <= k < |boundary| :: EntryContains(boundary[k], resource) == Some(true))
  }

  /** Readable: every entry is a prefix entry with a string. */
  predicate HoldsOnlyPrefixes(boundary: Scope) {
    forall k | 0 <= k < |boundary| :: boundary[k].kind == "prefix" && boundary[k].value.Str?
  }

  /** Some entry's tokens begin the resource's. */
  predicate SomePrefixBegins(boundary: Scope, resource: string) {
    exists k | 0 <= k < |boundary| :: boundary[k].value.Str? && Tokens(boundary[k].value.s) <= Tokens(resource)
  }

  lemma EntryIsExact(entry: ScopeEntry, resource: string)
    ensures EntryContains(entry, resource).Some? <==> entry.kind == "prefix" && entry.value.Str?
    ensures EntryContains(entry, resource) == Some(true)
            <==> entry.kind == "prefix" && entry.value.Str? && Tokens(entry.value.s) <= Tokens(resource)
    ensures EntryClaimedResource(entry)
            == if entry.kind == "prefix" && entry.value.Str? then Some(entry.value.s) else None
  {
    if entry.value.Str? {
      PrefixContainsIsTokenPrefix(entry.value.s, resource);
    }
  }

  lemma ReadableIsExact(boundary: Scope)
    ensures BoundaryIsEvaluable(boundary) <==> HoldsOnlyPrefixes(boundary)
  {
    forall k | 0 <= k < |boundary|
      ensures EntryContains(boundary[k], "").Some? <==> boundary[k].kind == "prefix" && boundary[k].value.Str?
    {
      EntryIsExact(boundary[k], "");
    }
  }

  /** A boundary contains a resource iff it can be read, and is empty or has a prefix that begins the resource. */
  lemma ScopeContainsIsExact(boundary: Scope, resource: string)
    ensures ScopeContains(boundary, resource)
            <==> HoldsOnlyPrefixes(boundary) && (boundary == [] || SomePrefixBegins(boundary, resource))
  {
    ReadableIsExact(boundary);
    forall k | 0 <= k < |boundary|
      ensures EntryContains(boundary[k], resource) == Some(true)
              <==> && boundary[k].kind == "prefix" && boundary[k].value.Str?
                   && Tokens(boundary[k].value.s) <= Tokens(resource)
    {
      EntryIsExact(boundary[k], resource);
    }
    if HoldsOnlyPrefixes(boundary) && SomePrefixBegins(boundary, resource) {
      var k :| 0 <= k < |boundary| && boundary[k].value.Str? && Tokens(boundary[k].value.s) <= Tokens(resource);
      assert EntryContains(boundary[k], resource) == Some(true);
    }
  }

  /** Any other entry, wherever it stands, refuses every resource. */
  lemma UnreadableEntryRefusesAll(boundary: Scope, k: nat, resource: string)
    requires k < |boundary| && !(boundary[k].kind == "prefix" && boundary[k].value.Str?)
    ensures !ScopeContains(boundary, resource)
  {
    ScopeContainsIsExact(boundary, resource);
  }

  method CheckScope(boundary: Scope, resource: string) returns (contains: bool)
    ensures contains == ScopeContains(boundary, resource)
    ensures contains <==> HoldsOnlyPrefixes(boundary) && (boundary == [] || SomePrefixBegins(boundary, resource))
  {
    hide HoldsOnlyPrefixes, SomePrefixBegins, PrefixContains;
    ScopeContainsIsExact(boundary, resource);
    var contained := false;
    for i := 0 to |boundary|
      invariant BoundaryIsEvaluable(boundary[..i])
      invariant contained <==> exists k | 0 <= k < i :: EntryContains(boundary[k], resource) == Some(true)
    {
      match EntryContains(boundary[i], resource) {
        case None =>
          assert EntryContains(boundary[i], "").None?;
          return false;
        case Some(hit) =>
          if hit {
            contained := true;
          }
      }
    }
    assert boundary[..|boundary|] == boundary;
    return boundary == [] || contained;
  }

  // ------------------------------------------------------------------
  // Attenuation
  // ------------------------------------------------------------------

  datatype AttenuationReason = AttenuatedScope | ScopeEscalation | UnknownScopeKind

  function ScopeAttenuationReason(parent: Scope, child: Scope): AttenuationReason {
    if !BoundaryIsEvaluable(parent) || !BoundaryIsEvaluable(child) then UnknownScopeKind
    else
      var attenuates :=
        if child == [] then parent == []
        else forall k | 0 <= k < |child| ::
               var claimed := EntryClaimedResource(child[k]);
               claimed.Some? && ScopeContains(parent, claimed.value);
      if attenuates then AttenuatedScope else ScopeEscalation
  }

  predicate ScopeAttenuates(parent: Scope, child: Scope) {
    ScopeAttenuationReason(parent, child) == AttenuatedScope
  }

  /** What a boundary means: every resource of the child's is one of the parent's. */
  ghost predicate Within(parent: Scope, child: Scope) {
    forall r: string :: ScopeContains(child, r) ==> ScopeContains(parent, r)
  }

  lemma AttenuatedIsWithin(parent: Scope, child: Scope)
    requires ScopeAttenuates(parent, child)
    ensures Within(parent, child)
  {
    forall r: string | ScopeContains(child, r) ensures ScopeContains(parent, r) {
      if child != [] && parent != [] {
        var k :| 0 <= k < |child| && EntryContains(child[k], r) == Some(true);
        var q := EntryClaimedResource(child[k]).value;
        assert ScopeContains(parent, q);
        var j :| 0 <= j < |parent| && EntryContains(parent[j], q) == Some(true);
        PrefixContainsIsAnOrder(parent[j].value.s, q, r);
        assert EntryContains(parent[j], r) == Some(true);
      }
    }
  }

  /** The rule is exactly resource inclusion, save that an empty child needs an empty parent. */
  lemma AttenuationIsExact(parent: Scope, child: Scope)
    requires BoundaryIsEvaluable(parent) && BoundaryIsEvaluable(child)
    ensures ScopeAttenuates(parent, child) <==> Within(parent, child) && (child == [] ==> parent == [])
  {
  }

  /** Both can be read, the child's holds nothing outside the parent's, and is empty only below an empty one. */
  ghost predicate IsNarrower(parent: Scope, child: Scope) {
    && HoldsOnlyPrefixes(parent) && HoldsOnlyPrefixes(child)
    && Within(parent, child)
    && (child == [] ==> parent == [])
  }

  lemma NarrowerIsExact(parent: Scope, child: Scope)
    ensures ScopeAttenuates(parent, child) <==> IsNarrower(parent, child)
  {
    hide ScopeContains, ScopeAttenuationReason;
    ReadableIsExact(parent);
    ReadableIsExact(child);
    AttenuationIsAPreorder(parent, child, child);
    if BoundaryIsEvaluable(parent) && BoundaryIsEvaluable(child) {
      AttenuationIsExact(parent, child);
    }
  }

  predicate HasMatchAll(boundary: Scope) {
    exists k | 0 <= k < |boundary| :: EntryClaimedResource(boundary[k]) == Some("")
  }

  /** The one corner where the rule refuses a delegation that widens nothing. */
  lemma AttenuationCorner(parent: Scope, child: Scope)
    requires BoundaryIsEvaluable(parent) && BoundaryIsEvaluable(child)
    ensures Within(parent, child) && !ScopeAttenuates(parent, child)
            <==> child == [] && HasMatchAll(parent)
  {
    AttenuationIsExact(parent, child);
    if child == [] && HasMatchAll(parent) {
      forall r: string ensures ScopeContains(parent, r) {
        var k :| 0 <= k < |parent| && EntryClaimedResource(parent[k]) == Some("");
        assert EntryContains(parent[k], r) == Some(true);
      }
    }
    if child == [] && parent != [] && Within(parent, child) {
      assert ScopeContains(child, "");
      var k :| 0 <= k < |parent| && EntryContains(parent[k], "") == Some(true);
      PrefixRuleByPosition(parent[k].value.s, "");
      assert EntryClaimedResource(parent[k]) == Some("");
    }
  }

  /** A preorder on readable boundaries; an unreadable side is refused even against itself. */
  lemma AttenuationIsAPreorder(a: Scope, b: Scope, c: Scope)
    ensures ScopeAttenuationReason(a, b) == UnknownScopeKind
            <==> !BoundaryIsEvaluable(a) || !BoundaryIsEvaluable(b)
    ensures BoundaryIsEvaluable(a) <==> ScopeAttenuates(a, a)
    ensures ScopeAttenuates(a, b) && ScopeAttenuates(b, c) ==> ScopeAttenuates(a, c)
  {
    if BoundaryIsEvaluable(a) {
      AttenuationIsExact(a, a);
      if BoundaryIsEvaluable(b) && BoundaryIsEvaluable(c) {
        AttenuationIsExact(a, b);
        AttenuationIsExact(b, c);
        AttenuationIsExact(a, c);
      }
    }
  }

  predicate CapsContain(caps: seq<string>, cap: string) {
    cap in caps
  }

  predicate CapsAttenuate(parent: seq<string>, child: seq<string>) {
    forall k | 0 <= k < |child| :: CapsContain(parent, child[k])
  }

  predicate IsSubset(child: seq<string>, parent: seq<string>) {
    forall c | c in child :: c in parent
  }

  lemma CapsAttenuateIsExact(parent: seq<string>, child: seq<string>)
    ensures CapsAttenuate(parent, child) <==> IsSubset(child, parent)
  {
    if CapsAttenuate(parent, child) {
      forall c | c in child ensures c in parent {
        var k :| 0 <= k < |child| && child[k] == c;
        assert CapsContain(parent, child[k]);
      }
    }
  }

  /** An expiry that cannot be read contains nothing and is contained by nothing. */
  predicate ExpiryAttenuates(parent: Timestamp, child: Timestamp) {
    match (ParseRfc3339(parent), ParseRfc3339(child))
    case (Some(p), Some(c)) => c <= p
    case _ => false
  }
}
