/** How an issuer is named: the thumbprint of its kernel key, and its trust domain. */
module IssuerIdentity {
  import opened Wire

  /** The thumbprint URI of a key; injective, as the hash behind it is taken to be. */
  function ThumbprintOf(key: Key): string {
    "urn:ietf:params:oauth:jwk-thumbprint:sha-256:" + key
  }

  lemma ThumbprintIsInjective(a: Key, b: Key)
    requires ThumbprintOf(a) == ThumbprintOf(b)
    ensures a == b
  {
    var n := |ThumbprintOf("")|;
    assert a == ThumbprintOf(a)[n..] == ThumbprintOf(b)[n..] == b;
  }

  function SplitLabels(s: string): (labels: seq<string>)
    ensures labels != []
  {
    if s == "" then [""]
    else
      var rest := SplitLabels(s[1..]);
      if s[0] == '.' then [""] + rest else [s[..1] + rest[0]] + rest[1..]
  }

  function Dotted(labels: seq<string>): string {
    if labels == [] then "" else if |labels| == 1 then labels[0] else labels[0] + "." + Dotted(labels[1..])
  }

  /** The labels are what stands between the dots. */
  lemma {:induction false} LabelsSpellTheName(s: string)
    ensures Dotted(SplitLabels(s)) == s
    ensures forall k | 0 <= k < |SplitLabels(s)| :: '.' !in SplitLabels(s)[k]
  {
    if s != "" {
      var rest := SplitLabels(s[1..]);
      LabelsSpellTheName(s[1..]);
      assert s == s[..1] + s[1..];
      if s[0] == '.' {
        assert ([""] + rest)[1..] == rest;
      } else {
        assert ([s[..1] + rest[0]] + rest[1..])[1..] == rest[1..];
      }
    }
  }

  predicate IsDigit(c: char) {
    '0' <= c <= '9'
  }

  predicate IsValidLabel(name: string) {
    && 0 < |name| <= 63
    && name[0] != '-' && name[|name| - 1] != '-'
    && forall k | 0 <= k < |name| :: 'a' <= name[k] <= 'z' || IsDigit(name[k]) || name[k] == '-'
  }

  /** And nothing else is: a name has one list of labels. */
  lemma {:induction false} LabelsAreUnique(labels: seq<string>)
    requires labels != [] && forall k | 0 <= k < |labels| :: '.' !in labels[k]
    ensures SplitLabels(Dotted(labels)) == labels
    decreases |labels|, |labels[0]|
  {
    var first, rest := labels[0], labels[1..];
    assert labels == [first] + rest;
    if first != "" {
      var shorter := [first[1..]] + rest;
      assert shorter[1..] == rest;
      assert Dotted(labels) == first[..1] + Dotted(shorter);
      assert Dotted(labels)[1..] == Dotted(shorter);
      assert first[0] in first && Dotted(labels)[0] == first[0] != '.';
      LabelsAreUnique(shorter);
      assert first[..1] + first[1..] == first;
    } else if rest != [] {
      assert Dotted(labels) == "." + Dotted(rest);
      assert Dotted(labels)[1..] == Dotted(rest);
      LabelsAreUnique(rest);
    }
  }

  predicate IsValidTrustDomain(s: string) {
    && 0 < |s| <= 253
    && var labels := SplitLabels(s);
       && |labels| >= 2
       && (forall k | 0 <= k < |labels| :: IsValidLabel(labels[k]))
       && var last := labels[|labels| - 1];
          exists k | 0 <= k < |last| :: !IsDigit(last[k])
  }
  /** Lower-case letters, digits and inner hyphens, 1 to 63 of them. */
  predicate IsDomainLabel(l: string) {
    && 1 <= |l| <= 63 && l[0] != '-' && l[|l| - 1] != '-'
    && forall c | c in l :: 'a' <= c <= 'z' || '0' <= c <= '9' || c == '-'
  }

  predicate IsNumeral(l: string) {
    forall c | c in l :: '0' <= c <= '9'
  }

  predicate AreDomainLabels(labels: seq<string>) {
    && 2 <= |labels|
    && (forall k | 0 <= k < |labels| :: IsDomainLabel(labels[k]))
    && !IsNumeral(labels[|labels| - 1])
  }

  lemma LabelIsExact(l: string)
    ensures IsValidLabel(l) <==> IsDomainLabel(l)
    ensures (exists k | 0 <= k < |l| :: !IsDigit(l[k])) <==> !IsNumeral(l)
  {
    forall k | 0 <= k < |l| ensures l[k] in l {
    }
  }

  /** A trust domain is such labels, dotted, in 253 characters at most. */
  lemma TrustDomainIsExact(s: string)
    ensures IsValidTrustDomain(s) <==> |s| <= 253 && exists labels :: Dotted(labels) == s && AreDomainLabels(labels)
  {
    hide IsValidLabel, IsDomainLabel, IsDigit, IsNumeral;
    LabelsSpellTheName(s);
    forall l: string
      ensures IsValidLabel(l) <==> IsDomainLabel(l)
      ensures (exists k | 0 <= k < |l| :: !IsDigit(l[k])) <==> !IsNumeral(l)
    {
      LabelIsExact(l);
    }
    forall labels | Dotted(labels) == s && AreDomainLabels(labels) ensures SplitLabels(s) == labels {
      DomainLabelsHaveNoDot(labels);
      LabelsAreUnique(labels);
    }
  }

  lemma DomainLabelsHaveNoDot(labels: seq<string>)
    requires AreDomainLabels(labels)
    ensures forall k | 0 <= k < |labels| :: '.' !in labels[k]
  {
  }
}
