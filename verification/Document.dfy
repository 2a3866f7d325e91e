/** The VAID document: what it holds, how it is read from and written to JSON, what is signed. */
module Document {
  import opened Wrappers
  import opened Wire
  import opened ScopeRules

  const VAID_SIG_VERSION_V4 := 4

  /** A UUID member exactly as it was presented, beside the UUID it denotes. */
  datatype PresentedUuid = PresentedUuid(raw: string, uuid: Uuid)

  function FromUuid(uuid: Uuid): PresentedUuid {
    PresentedUuid(uuid, uuid)
  }

  /** `parentVaid` is None when absent and Some(None) when present as null. */
  datatype Vaid = Vaid(
    sigVersion: int,
    vaidId: PresentedUuid,
    agentId: PresentedUuid,
    agentClass: string,
    version: string,
    tenantId: string,
    issuedAt: Timestamp,
    expiresAt: Timestamp,
    publicKeyDer: Octets,
    kernelSignature: Octets,
    parentVaid: Option<Option<PresentedUuid>>,
    scopeBoundary: Scope,
    lineageHash: string,
    capabilitySet: seq<string>,
    trustDomain: string,
    thumbprint: string,
    unknownFields: Object)
  {
    function Id(): Uuid {
      vaidId.uuid
    }

    function Parent(): Option<Uuid> {
      if parentVaid.Some? && parentVaid.value.Some? then Some(parentVaid.value.value.uuid) else None
    }

    function Expiry(): Option<Instant> {
      ParseRfc3339(expiresAt)
    }

    /** Total: an expiry that cannot be read has passed. */
    predicate IsExpiredAt(now: Instant) {
      match Expiry()
      case Some(expiry) => now > expiry
      case None => true
    }
  }

  predicate IsLive(v: Vaid, now: Instant) {
    v.Expiry().Some? && now <= v.Expiry().value
  }

  // ------------------------------------------------------------------
  // Writing
  // ------------------------------------------------------------------

  function EntryJson(entry: ScopeEntry): Json {
    Obj(map["kind" := Str(entry.kind), "value" := entry.value])
  }

  function ScopeJson(scope: Scope): Json {
    Arr(seq(|scope|, k requires 0 <= k < |scope| => EntryJson(scope[k])))
  }

  function StringsJson(strings: seq<string>): Json {
    Arr(seq(|strings|, k requires 0 <= k < |strings| => Str(strings[k])))
  }

  function ParentJson(parent: Option<PresentedUuid>): Json {
    match parent
    case None => Null
    case Some(p) => Str(p.raw)
  }

  const NAMED_MEMBERS: set<MemberName> :=
    {SigVersion, VaidId, AgentId, AgentClass, Version, TenantId, IssuedAt, ExpiresAt, PublicKeyDer,
     KernelSignature, ParentVaid, ScopeBoundary, LineageHash, CapabilitySet, TrustDomain, KernelKeyThumbprint}

  /** Every named member is written, `parent_vaid` only if it was there, and every unknown one. */
  predicate IsWritten(v: Vaid, name: MemberName) {
    match name
    case ParentVaid => v.parentVaid.Some?
    case Extension(_) => name in v.unknownFields
    case _ => true
  }

  function Written(v: Vaid, name: MemberName): Json
    requires IsWritten(v, name)
  {
    match name
    case SigVersion => Int(v.sigVersion)
    case VaidId => Str(v.vaidId.raw)
    case AgentId => Str(v.agentId.raw)
    case AgentClass => Str(v.agentClass)
    case Version => Str(v.version)
    case TenantId => Str(v.tenantId)
    case IssuedAt => Time(v.issuedAt)
    case ExpiresAt => Time(v.expiresAt)
    case PublicKeyDer => Bytes(v.publicKeyDer)
    case KernelSignature => Bytes(v.kernelSignature)
    case ParentVaid => ParentJson(v.parentVaid.value)
    case ScopeBoundary => ScopeJson(v.scopeBoundary)
    case LineageHash => Str(v.lineageHash)
    case CapabilitySet => StringsJson(v.capabilitySet)
    case TrustDomain => Str(v.trustDomain)
    case KernelKeyThumbprint => Str(v.thumbprint)
    case Extension(_) => v.unknownFields[name]
  }

  function ToObject(v: Vaid): (o: Object)
    ensures forall name :: name in o <==> IsWritten(v, name)
  {
    map name | name in NAMED_MEMBERS + v.unknownFields.Keys && IsWritten(v, name) :: Written(v, name)
  }

  /** What is signed: the whole object with the signature's own member nulled. */
  function SigningMessage(v: Vaid): Message {
    VaidMessage(ToObject(v)[KernelSignature := Null])
  }

  // ------------------------------------------------------------------
  // Reading
  // ------------------------------------------------------------------

  type UuidParser = string -> Option<Uuid>

  predicate IsUuid(j: Json, parse: UuidParser) {
    j.Str? && parse(j.s).Some?
  }

  function AsUuid(j: Json, parse: UuidParser): PresentedUuid
    requires IsUuid(j, parse)
  {
    PresentedUuid(j.s, parse(j.s).value)
  }

  predicate IsValidEntry(entry: ScopeEntry) {
    entry.kind != "" && (entry.kind == SCOPE_KIND_PREFIX ==> entry.value.Str?)
  }

  /** Exactly the members `kind` and `value`, of the types the kind fixes. */
  predicate IsEntryJson(j: Json) {
    && j.Obj?
    && j.members.Keys == {"kind", "value"}
    && j.members["kind"].Str?
    && IsValidEntry(ScopeEntry(j.members["kind"].s, j.members["value"]))
  }

  predicate IsScopeJson(j: Json) {
    j.Arr? && forall k | 0 <= k < |j.items| :: IsEntryJson(j.items[k])
  }

  function AsScope(j: Json): Scope
    requires IsScopeJson(j)
  {
    seq(|j.items|, k requires 0 <= k < |j.items| =>
      ScopeEntry(j.items[k].members["kind"].s, j.items[k].members["value"]))
  }

  predicate IsStringsJson(j: Json) {
    j.Arr? && forall k | 0 <= k < |j.items| :: j.items[k].Str?
  }

  function AsStrings(j: Json): seq<string>
    requires IsStringsJson(j)
  {
    seq(|j.items|, k requires 0 <= k < |j.items| => j.items[k].s)
  }

  predicate IsValidMember(name: MemberName, j: Json, parse: UuidParser) {
    match name
    case SigVersion => j.Int? && 0 <= j.n < 256
    case VaidId => IsUuid(j, parse)
    case AgentId => IsUuid(j, parse)
    case IssuedAt => j.Time?
    case ExpiresAt => j.Time?
    case PublicKeyDer => j.Bytes?
    case KernelSignature => j.Bytes?
    case ParentVaid => j.Null? || IsUuid(j, parse)
    case ScopeBoundary => IsScopeJson(j)
    case CapabilitySet => IsStringsJson(j)
    case Extension(_) => true
    case _ => j.Str?
  }

  /** Only `sig_version` and `parent_vaid` may be absent. */
  predicate HasRequiredMembers(o: Object) {
    && VaidId in o && AgentId in o && AgentClass in o && Version in o && TenantId in o
    && IssuedAt in o && ExpiresAt in o && PublicKeyDer in o && KernelSignature in o
    && ScopeBoundary in o && LineageHash in o && CapabilitySet in o && TrustDomain in o
    && KernelKeyThumbprint in o
  }

  /** Does the object parse as a document? */
  predicate IsDocument(o: Object, parse: UuidParser) {
    HasRequiredMembers(o) && forall name | name in o :: IsValidMember(name, o[name], parse)
  }

  function FromObject(o: Object, parse: UuidParser): Option<Vaid> {
    if !IsDocument(o, parse) then None
    else Some(Vaid(
      if SigVersion in o then o[SigVersion].n else 0,
      AsUuid(o[VaidId], parse),
      AsUuid(o[AgentId], parse),
      o[AgentClass].s,
      o[Version].s,
      o[TenantId].s,
      o[IssuedAt].t,
      o[ExpiresAt].t,
      o[PublicKeyDer].octets,
      o[KernelSignature].octets,
      if ParentVaid !in o then None
      else if o[ParentVaid].Null? then Some(None)
      else Some(Some(AsUuid(o[ParentVaid], parse))),
      AsScope(o[ScopeBoundary]),
      o[LineageHash].s,
      AsStrings(o[CapabilitySet]),
      o[TrustDomain].s,
      o[KernelKeyThumbprint].s,
      map name | name in o && name.Extension? :: o[name]))
  }

  /** A document some object parses to. */
  predicate IsParsed(v: Vaid, parse: UuidParser) {
    && 0 <= v.sigVersion < 256
    && parse(v.vaidId.raw) == Some(v.vaidId.uuid)
    && parse(v.agentId.raw) == Some(v.agentId.uuid)
    && (v.parentVaid.Some? && v.parentVaid.value.Some? ==>
          parse(v.parentVaid.value.value.raw) == Some(v.parentVaid.value.value.uuid))
    && (forall k | 0 <= k < |v.scopeBoundary| :: IsValidEntry(v.scopeBoundary[k]))
    && (forall name | name in v.unknownFields :: name.Extension?)
  }

  // ------------------------------------------------------------------
  // What a document is
  // ------------------------------------------------------------------

  /** An object of just a kind and a value: a kind with a name, and for a prefix a string. */
  predicate IsBoundaryEntry(j: Json) {
    && j.Obj? && j.members.Keys == {"kind", "value"}
    && j.members["kind"].Str? && j.members["kind"].s != ""
    && (j.members["kind"].s == "prefix" ==> j.members["value"].Str?)
  }

  predicate AreBoundaryEntries(j: Json) {
    j.Arr? && forall k | 0 <= k < |j.items| :: IsBoundaryEntry(j.items[k])
  }

  predicate AreStrings(j: Json) {
    j.Arr? && forall k | 0 <= k < |j.items| :: j.items[k].Str?
  }

  predicate DenotesUuid(j: Json, parse: UuidParser) {
    j.Str? && parse(j.s) != None
  }

  /** What each member has to be; any other member may be anything. */
  predicate IsWellTyped(name: MemberName, j: Json, parse: UuidParser) {
    && (name == SigVersion ==> j.Int? && 0 <= j.n < 256)
    && (name in {VaidId, AgentId} ==> DenotesUuid(j, parse))
    && (name == ParentVaid ==> j == Null || DenotesUuid(j, parse))
    && (name in {AgentClass, Version, TenantId, LineageHash, TrustDomain, KernelKeyThumbprint} ==> j.Str?)
    && (name in {IssuedAt, ExpiresAt} ==> j.Time?)
    && (name in {PublicKeyDer, KernelSignature} ==> j.Bytes?)
    && (name == ScopeBoundary ==> AreBoundaryEntries(j))
    && (name == CapabilitySet ==> AreStrings(j))
  }

  /** An object is a document iff it has every named member but two, and each member it has is of its type. */
  lemma ParsesExactlyWhen(o: Object, parse: UuidParser)
    ensures FromObject(o, parse).Some?
            <==> && (forall name | name in NAMED_MEMBERS && name !in {SigVersion, ParentVaid} :: name in o)
                 && (forall name | name in o :: IsWellTyped(name, o[name], parse))
  {
    hide IsValidMember, IsWellTyped;
    forall name | name in o ensures IsValidMember(name, o[name], parse) <==> IsWellTyped(name, o[name], parse) {
      MemberIsExact(name, o[name], parse);
    }
    RequiredMembersAre(o);
  }

  lemma RequiredMembersAre(o: Object)
    ensures HasRequiredMembers(o)
            <==> forall name | name in NAMED_MEMBERS && name !in {SigVersion, ParentVaid} :: name in o
  {
  }

  lemma MemberIsExact(name: MemberName, j: Json, parse: UuidParser)
    ensures IsValidMember(name, j, parse) <==> IsWellTyped(name, j, parse)
  {
    hide AreStrings, AreBoundaryEntries, IsScopeJson, IsStringsJson;
    ListsAreExact();
  }

  lemma ListsAreExact()
    ensures forall j {:trigger IsScopeJson(j)} :: IsScopeJson(j) <==> AreBoundaryEntries(j)
    ensures forall j {:trigger IsStringsJson(j)} :: IsStringsJson(j) <==> AreStrings(j)
  {
    assert forall j :: IsEntryJson(j) <==> IsBoundaryEntry(j);
  }

  /** And then it says what its object says, member by member. */
  lemma ParsedReadsItsMembers(o: Object, parse: UuidParser, v: Vaid)
    requires FromObject(o, parse) == Some(v)
    ensures v.sigVersion == if SigVersion in o then o[SigVersion].n else 0
    ensures Str(v.vaidId.raw) == o[VaidId] && Some(v.Id()) == parse(v.vaidId.raw)
    ensures Str(v.agentId.raw) == o[AgentId] && Some(v.agentId.uuid) == parse(v.agentId.raw)
    ensures Str(v.agentClass) == o[AgentClass] && Str(v.version) == o[Version] && Str(v.tenantId) == o[TenantId]
    ensures Str(v.lineageHash) == o[LineageHash] && Str(v.trustDomain) == o[TrustDomain]
    ensures Str(v.thumbprint) == o[KernelKeyThumbprint]
    ensures Time(v.issuedAt) == o[IssuedAt] && Time(v.expiresAt) == o[ExpiresAt]
    ensures Bytes(v.publicKeyDer) == o[PublicKeyDer] && Bytes(v.kernelSignature) == o[KernelSignature]
    ensures if ParentVaid in o && o[ParentVaid].Str? then v.Parent() == parse(o[ParentVaid].s) else v.Parent() == None
    ensures |v.scopeBoundary| == |o[ScopeBoundary].items| && |v.capabilitySet| == |o[CapabilitySet].items|
    ensures forall k | 0 <= k < |v.scopeBoundary| ::
              o[ScopeBoundary].items[k].members
              == map["kind" := Str(v.scopeBoundary[k].kind), "value" := v.scopeBoundary[k].value]
    ensures forall k | 0 <= k < |v.capabilitySet| :: Str(v.capabilitySet[k]) == o[CapabilitySet].items[k]
  {
    forall k | 0 <= k < |v.scopeBoundary|
      ensures o[ScopeBoundary].items[k].members
              == map["kind" := Str(v.scopeBoundary[k].kind), "value" := v.scopeBoundary[k].value]
    {
      assert IsEntryJson(o[ScopeBoundary].items[k]);
    }
  }

  // ------------------------------------------------------------------
  // Round trips
  // ------------------------------------------------------------------

  lemma ScopeJsonRoundTrip(j: Json)
    requires IsScopeJson(j)
    ensures ScopeJson(AsScope(j)) == j
  {
    forall k | 0 <= k < |j.items| ensures EntryJson(AsScope(j)[k]) == j.items[k] {
      assert j.items[k].members == EntryJson(AsScope(j)[k]).members;
    }
  }

  lemma ScopeRoundTrip(scope: Scope)
    requires forall k | 0 <= k < |scope| :: IsValidEntry(scope[k])
    ensures IsScopeJson(ScopeJson(scope)) && AsScope(ScopeJson(scope)) == scope
  {
  }

  lemma StringsRoundTrip(strings: seq<string>)
    ensures IsStringsJson(StringsJson(strings)) && AsStrings(StringsJson(strings)) == strings
  {
  }

  /** Member for member, a parsed document is written as it was presented. */
  lemma PresentedMember(o: Object, parse: UuidParser, v: Vaid, name: MemberName)
    requires FromObject(o, parse) == Some(v) && SigVersion in o
    ensures name in o <==> IsWritten(v, name)
    ensures name in o ==> Written(v, name) == o[name]
  {
    if name == ScopeBoundary {
      ScopeJsonRoundTrip(o[ScopeBoundary]);
    }
    if name == CapabilitySet {
      assert StringsJson(AsStrings(o[CapabilitySet])) == o[CapabilitySet];
    }
  }

  /** A parsed document is written back exactly as presented, provided the object carried `sig_version`. */
  lemma PresentedRoundTrip(o: Object, parse: UuidParser, v: Vaid)
    requires FromObject(o, parse) == Some(v)
    ensures ToObject(v) == o <==> SigVersion in o
  {
    assert IsWritten(v, SigVersion);
    if SigVersion in o {
      forall name ensures (name in o <==> IsWritten(v, name)) && (name in o ==> Written(v, name) == o[name]) {
        PresentedMember(o, parse, v, name);
      }
    }
  }

  lemma ParsedIsParsed(o: Object, parse: UuidParser)
    requires IsDocument(o, parse)
    ensures IsParsed(FromObject(o, parse).value, parse)
  {
    assert forall k | 0 <= k < |o[ScopeBoundary].items| :: IsEntryJson(o[ScopeBoundary].items[k]);
  }

  lemma WrittenIsDocument(v: Vaid, parse: UuidParser)
    requires IsParsed(v, parse)
    ensures IsDocument(ToObject(v), parse)
  {
    ScopeRoundTrip(v.scopeBoundary);
    StringsRoundTrip(v.capabilitySet);
    assert forall name | name in ToObject(v) :: IsValidMember(name, Written(v, name), parse);
  }

  lemma ExtensionsRoundTrip(v: Vaid)
    requires forall name | name in v.unknownFields :: name.Extension?
    ensures (map name | name in ToObject(v) && name.Extension? :: ToObject(v)[name]) == v.unknownFields
  {
  }

  lemma DocumentRoundTrip(v: Vaid, parse: UuidParser)
    requires IsParsed(v, parse)
    ensures FromObject(ToObject(v), parse) == Some(v)
  {
    WrittenIsDocument(v, parse);
    ExtensionsRoundTrip(v);
    ScopeRoundTrip(v.scopeBoundary);
    StringsRoundTrip(v.capabilitySet);
  }

  lemma UpdatedTwice(o: Object, name: MemberName, first: Json, second: Json)
    ensures o[name := first][name := second] == o[name := second]
  {
  }

  lemma OnlySignatureChanges(v: Vaid, signature: Octets)
    ensures ToObject(v.(kernelSignature := signature)) == ToObject(v)[KernelSignature := Bytes(signature)]
  {
    var w := v.(kernelSignature := signature);
    assert forall name | name in ToObject(v) && name != KernelSignature :: Written(w, name) == Written(v, name);
  }

  lemma SignatureCoversEverythingElse(v: Vaid, signature: Octets)
    ensures SigningMessage(v.(kernelSignature := signature)) == SigningMessage(v)
    ensures ToObject(v.(kernelSignature := signature))
        == SigningMessage(v).presented[KernelSignature := Bytes(signature)]
  {
    hide ToObject;
    OnlySignatureChanges(v, signature);
    UpdatedTwice(ToObject(v), KernelSignature, Bytes(signature), Null);
    UpdatedTwice(ToObject(v), KernelSignature, Null, Bytes(signature));
  }

  /** The signing digest fixes every other member, down to its spelling. */
  lemma EqualDigestsMeanEqualDocuments(v: Vaid, w: Vaid, parse: UuidParser)
    requires IsParsed(v, parse) && IsParsed(w, parse)
    requires SigningMessage(v) == SigningMessage(w)
    ensures v == w.(kernelSignature := v.kernelSignature)
  {
    SignatureCoversEverythingElse(v, v.kernelSignature);
    SignatureCoversEverythingElse(w, v.kernelSignature);
    assert v.(kernelSignature := v.kernelSignature) == v;
    DocumentRoundTrip(v, parse);
    DocumentRoundTrip(w.(kernelSignature := v.kernelSignature), parse);
  }
}
