/** The Python verifiers' trust configuration: kernel keys, each bound to one trust domain. */
module Trust {
  import opened Wrappers
  import opened Wire
  import opened IssuerIdentity
  import Chain

  /** An entry as configured; members that are absent or not strings are None. */
  datatype Entry = NotAnObject | Entry(kernelPublicKey: Option<string>, trustDomain: Option<string>)

  datatype ConfigError = EntryNotAnObject | NoKey | MalformedKey | WrongKeyLength | NoDomain | KeyListedTwice

  /** Strict unpadded base64url: one spelling for each key, None for everything else. */
  type Decoder = string -> Option<Key>

  const ED25519_PUBLIC_KEY_BYTES := 32

  datatype TrustedIssuer = TrustedIssuer(publicKey: Key, trustDomain: string)

  datatype TrustedIssuers = TrustedIssuers(entries: map<string, TrustedIssuer>) {
    function ResolveKey(thumbprint: string): Option<Key> {
      if thumbprint in entries then Some(entries[thumbprint].publicKey) else None
    }

    function TrustDomainFor(thumbprint: string): Option<string> {
      if thumbprint in entries then Some(entries[thumbprint].trustDomain) else None
    }

    function Resolver(): Chain.KeyResolver {
      thumbprint => ResolveKey(thumbprint)
    }
  }

  /** What is wrong with an entry on its own, in the order it is looked at. */
  function EntryFault(entry: Entry, decode: Decoder): Option<ConfigError> {
    match entry
    case NotAnObject => Some(EntryNotAnObject)
    case Entry(raw, domain) =>
      if raw.None? then Some(NoKey)
      else match decode(raw.value)
        case None => Some(MalformedKey)
        case Some(key) =>
          if |key| != ED25519_PUBLIC_KEY_BYTES then Some(WrongKeyLength)
          else if domain.None? then Some(NoDomain)
          else None
  }

  /** An object with both strings, the first of them spelling a key of 32 bytes; otherwise the first thing it lacks. */
  lemma EntryFaultIsExact(entry: Entry, decode: Decoder)
    ensures EntryFault(entry, decode) == None
            <==> && entry.Entry? && entry.kernelPublicKey.Some? && entry.trustDomain.Some?
                 && decode(entry.kernelPublicKey.value).Some? && |decode(entry.kernelPublicKey.value).value| == 32
    ensures EntryFault(entry, decode) == Some(EntryNotAnObject) <==> entry.NotAnObject?
    ensures EntryFault(entry, decode) == Some(NoKey) <==> entry.Entry? && entry.kernelPublicKey.None?
    ensures EntryFault(entry, decode) == Some(MalformedKey)
            <==> entry.Entry? && entry.kernelPublicKey.Some? && decode(entry.kernelPublicKey.value).None?
    ensures EntryFault(entry, decode) == Some(WrongKeyLength)
            <==> && entry.Entry? && entry.kernelPublicKey.Some?
                 && decode(entry.kernelPublicKey.value).Some? && |decode(entry.kernelPublicKey.value).value| != 32
  {
  }

  function IssuerOf(entry: Entry, decode: Decoder): TrustedIssuer
    requires EntryFault(entry, decode) == None
  {
    TrustedIssuer(decode(entry.kernelPublicKey.value).value, entry.trustDomain.value)
  }

  predicate IsWellFormed(entries: seq<Entry>, decode: Decoder) {
    forall k | 0 <= k < |entries| :: EntryFault(entries[k], decode) == None
  }

  predicate SameKey(entries: seq<Entry>, decode: Decoder, i: nat, j: nat)
    requires IsWellFormed(entries, decode) && i < |entries| && j < |entries|
  {
    IssuerOf(entries[i], decode).publicKey == IssuerOf(entries[j], decode).publicKey
  }

  predicate NoKeyTwice(entries: seq<Entry>, decode: Decoder)
    requires IsWellFormed(entries, decode)
  {
    forall i, j | 0 <= i < j < |entries| :: !SameKey(entries, decode, i, j)
  }

  /** Each entry is found under its own key's thumbprint, and nothing else is found. */
  predicate IsConfigurationOf(keys: TrustedIssuers, entries: seq<Entry>, decode: Decoder)
    requires IsWellFormed(entries, decode)
  {
    && (forall k | 0 <= k < |entries| ::
          var issuer := IssuerOf(entries[k], decode);
          ThumbprintOf(issuer.publicKey) in keys.entries && keys.entries[ThumbprintOf(issuer.publicKey)] == issuer)
    && (forall t | t in keys.entries :: IsFiledBy(entries, decode, t))
  }

  predicate IsFiledBy(entries: seq<Entry>, decode: Decoder, thumbprint: string)
    requires IsWellFormed(entries, decode)
  {
    exists k | 0 <= k < |entries| :: ThumbprintOf(IssuerOf(entries[k], decode).publicKey) == thumbprint
  }

  /** The domains listed for a thumbprint, and whether that key came up once or more. */
  ghost predicate IsTally(domains: map<string, seq<string>>, entries: seq<Entry>, decode: Decoder)
    requires IsWellFormed(entries, decode)
  {
    && (forall k | 0 <= k < |entries| :: ThumbprintOf(IssuerOf(entries[k], decode).publicKey) in domains)
    && (forall t | t in domains :: |domains[t]| >= 1 && IsFiledBy(entries, decode, t))
    && (NoKeyTwice(entries, decode) <==> forall t | t in domains :: |domains[t]| == 1)
  }

  lemma StillFiled(entries: seq<Entry>, next: Entry, decode: Decoder, thumbprint: string)
    requires IsWellFormed(entries, decode) && EntryFault(next, decode) == None
    ensures IsWellFormed(entries + [next], decode)
    ensures IsFiledBy(entries + [next], decode, thumbprint)
            <==> IsFiledBy(entries, decode, thumbprint) || ThumbprintOf(IssuerOf(next, decode).publicKey) == thumbprint
  {
    var more, n := entries + [next], |entries|;
    assert more[n] == next && forall k | 0 <= k < n :: more[k] == entries[k];
    if IsFiledBy(entries, decode, thumbprint) {
      var k :| 0 <= k < n && ThumbprintOf(IssuerOf(entries[k], decode).publicKey) == thumbprint;
      assert ThumbprintOf(IssuerOf(more[k], decode).publicKey) == thumbprint;
    }
    if ThumbprintOf(IssuerOf(next, decode).publicKey) == thumbprint {
      assert ThumbprintOf(IssuerOf(more[n], decode).publicKey) == thumbprint;
    }
  }

  lemma NewKeyOrNot(entries: seq<Entry>, next: Entry, decode: Decoder)
    requires IsWellFormed(entries, decode) && EntryFault(next, decode) == None
    ensures IsWellFormed(entries + [next], decode)
    ensures NoKeyTwice(entries + [next], decode)
            <==> NoKeyTwice(entries, decode)
                 && !IsFiledBy(entries, decode, ThumbprintOf(IssuerOf(next, decode).publicKey))
  {
    var more, n, key := entries + [next], |entries|, IssuerOf(next, decode).publicKey;
    assert more[n] == next && forall k | 0 <= k < n :: more[k] == entries[k];
    assert forall i, j | 0 <= i < j < n :: SameKey(more, decode, i, j) == SameKey(entries, decode, i, j);
    if IsFiledBy(entries, decode, ThumbprintOf(key)) {
      var k :| 0 <= k < n && ThumbprintOf(IssuerOf(entries[k], decode).publicKey) == ThumbprintOf(key);
      ThumbprintIsInjective(IssuerOf(entries[k], decode).publicKey, key);
      assert SameKey(more, decode, k, n);
    }
  }

  lemma TallyGrows(domains: map<string, seq<string>>, entries: seq<Entry>, next: Entry, decode: Decoder)
    requires IsWellFormed(entries, decode) && EntryFault(next, decode) == None
    requires IsTally(domains, entries, decode)
    ensures var issuer := IssuerOf(next, decode);
            var t := ThumbprintOf(issuer.publicKey);
            var listed := if t in domains then domains[t] else [];
            IsWellFormed(entries + [next], decode)
            && IsTally(domains[t := listed + [issuer.trustDomain]], entries + [next], decode)
  {
    hide IsFiledBy, NoKeyTwice;
    var issuer := IssuerOf(next, decode);
    var t := ThumbprintOf(issuer.publicKey);
    var after := domains[t := (if t in domains then domains[t] else []) + [issuer.trustDomain]];
    NewKeyOrNot(entries, next, decode);
    forall u ensures u in after ==> |after[u]| >= 1 && IsFiledBy(entries + [next], decode, u) {
      StillFiled(entries, next, decode, u);
    }
    FiledIsTallied(domains, entries, decode, t);
    assert |after[t]| == 1 <==> t !in domains;
    assert forall u | u in domains && u != t :: after[u] == domains[u];
  }

  lemma FiledIsTallied(domains: map<string, seq<string>>, entries: seq<Entry>, decode: Decoder, thumbprint: string)
    requires IsWellFormed(entries, decode) && IsTally(domains, entries, decode)
    ensures IsFiledBy(entries, decode, thumbprint) <==> thumbprint in domains
  {
  }

  lemma ConfigurationGrows(keys: TrustedIssuers, entries: seq<Entry>, next: Entry, decode: Decoder)
    requires IsWellFormed(entries, decode) && EntryFault(next, decode) == None
    requires NoKeyTwice(entries, decode) ==> IsConfigurationOf(keys, entries, decode)
    ensures IsWellFormed(entries + [next], decode)
    ensures NoKeyTwice(entries + [next], decode) ==>
              var issuer := IssuerOf(next, decode);
              IsConfigurationOf(TrustedIssuers(keys.entries[ThumbprintOf(issuer.publicKey) := issuer]),
                  entries + [next], decode)
  {
    hide NoKeyTwice;
    var t, more := ThumbprintOf(IssuerOf(next, decode).publicKey), entries + [next];
    NewKeyOrNot(entries, next, decode);
    if NoKeyTwice(more, decode) {
      forall k | 0 <= k < |entries| ensures ThumbprintOf(IssuerOf(entries[k], decode).publicKey) != t {
        assert !IsFiledBy(entries, decode, t);
      }
      forall u ensures u in keys.entries || u == t ==> IsFiledBy(more, decode, u) {
        StillFiled(entries, next, decode, u);
      }
    }
  }

  lemma EmptyTally(decode: Decoder)
    ensures IsWellFormed([], decode) && IsTally(map[], [], decode)
    ensures IsConfigurationOf(TrustedIssuers(map[]), [], decode)
  {
  }

  lemma TallyDecides(domains: map<string, seq<string>>, entries: seq<Entry>, decode: Decoder)
    requires IsWellFormed(entries, decode) && IsTally(domains, entries, decode)
    ensures NoKeyTwice(entries, decode) <==> forall t | t in domains :: |domains[t]| <= 1
  {
  }

  lemma FaultyEntry(entries: seq<Entry>, decode: Decoder, k: nat)
    requires k < |entries| && EntryFault(entries[k], decode).Some?
    ensures !IsWellFormed(entries, decode)
  {
  }

  /** Succeeds exactly on well-formed entries that repeat no key, and then files each under its own thumbprint. */
  method Load(entries: seq<Entry>, decode: Decoder) returns (r: Result<TrustedIssuers, ConfigError>)
    ensures r.Success? <==> IsWellFormed(entries, decode) && NoKeyTwice(entries, decode)
    ensures r.Success? ==> IsConfigurationOf(r.value, entries, decode)
    ensures r.Failure? && !IsWellFormed(entries, decode) ==>
              exists k | 0 <= k < |entries| ::
                IsWellFormed(entries[..k], decode) && EntryFault(entries[k], decode) == Some(r.error)
    ensures r.Failure? && IsWellFormed(entries, decode) ==> r.error == KeyListedTwice
  {
    hide IsWellFormed, IsTally, IsConfigurationOf, NoKeyTwice, IsFiledBy, EntryFault;
    var found: map<string, TrustedIssuer> := map[];
    EmptyTally(decode);
    var domains: map<string, seq<string>> := map[];
    for i := 0 to |entries|
      invariant IsWellFormed(entries[..i], decode)
      invariant IsTally(domains, entries[..i], decode)
      invariant NoKeyTwice(entries[..i], decode) ==> IsConfigurationOf(TrustedIssuers(found), entries[..i], decode)
    {
      var fault := EntryFault(entries[i], decode);
      if fault.Some? {
        FaultyEntry(entries, decode, i);
        return Failure(fault.value);
      }
      var issuer := IssuerOf(entries[i], decode);
      var thumbprint := ThumbprintOf(issuer.publicKey);
      assert entries[..i] + [entries[i]] == entries[..i + 1];
      TallyGrows(domains, entries[..i], entries[i], decode);
      ConfigurationGrows(TrustedIssuers(found), entries[..i], entries[i], decode);
      var listed := if thumbprint in domains then domains[thumbprint] else [];
      domains := domains[thumbprint := listed + [issuer.trustDomain]];
      found := found[thumbprint := issuer];
    }
    assert entries[..|entries|] == entries;
    var todo := domains.Keys;
    while todo != {}
      invariant todo <= domains.Keys
      invariant forall t | t in domains && t !in todo :: |domains[t]| <= 1
      decreases todo
    {
      var t :| t in todo;
      if |domains[t]| > 1 {
        TallyDecides(domains, entries, decode);
        return Failure(KeyListedTwice);
      }
      todo := todo - {t};
    }
    TallyDecides(domains, entries, decode);
    return Success(TrustedIssuers(found));
  }

  /** A loaded configuration answers for a key exactly with the one domain its entry gave. */
  lemma LookupsAreExact(keys: TrustedIssuers, entries: seq<Entry>, decode: Decoder, key: Key, domain: string)
    requires IsWellFormed(entries, decode) && IsConfigurationOf(keys, entries, decode)
    ensures keys.ResolveKey(ThumbprintOf(key)) == Some(key) && keys.TrustDomainFor(ThumbprintOf(key)) == Some(domain)
            <==> exists k | 0 <= k < |entries| ::
                   && entries[k].Entry? && entries[k].kernelPublicKey.Some? && entries[k].trustDomain == Some(domain)
                   && decode(entries[k].kernelPublicKey.value) == Some(key)
  {
  }
}
