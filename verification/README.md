# VAID delegation engine: a verified model

This project models the delegation engine of the VAID reference implementation (the Rust crate
`vaid-mint`) and the two Python consumers that act on its verdicts (`vaid-adk` and `vaid-jwt-bridge`),
and proves what the whole promises: that authority only shrinks down a chain, that mint and verifier
never disagree about a document the mint issued, that a revocation holds for good, and that a token
or an allowed call rests on a chain that is live from end to end.

`dafny verify dfyconfig.toml` checks everything. Each file is one module of the same name.

## How the system is modelled

**Values** (`Wire`, `Document`, `ScopeRules`, `IssuerIdentity`, `Verify`, `Attestation`,
`PresentedConsents`). A document is a
record with the sixteen members its type names, beside the members it does not know. JSON text is
modelled only for the duplicate scanner; elsewhere a presented document is a map from member names to
JSON values. Signatures are ideal: one verifies exactly when that key signed that message. SHA-256,
RFC 8785 canonicalization and the RFC 9278 thumbprint are injective. Instants are integers of
nanoseconds, and a timestamp is a whole-second E.6 string, a fractional one as chrono writes it, some
other RFC 3339 string, or unreadable.

**Loops and stores** stay imperative: the byte scanner (`Duplicates`), the scope matcher (`ScopeRules`),
ancestry assembly and the in-memory stores (`Revocation`), the chain verifier (`Chain`), the issuer and
the mint service (`Service`), the trust configuration (`Trust`), presentation checks (`Presentation`),
claim nesting (`Claims`) and the exchange (`Exchange`). Each is proved against a function, and the
theorems are about those functions.

**What the definitions mean** is stated apart from them (`MintLaws`, `ChainLaws`, `PresentationLaws`, `RunLaws`, and
the lemmas named `...IsExact`): each decision is an if-and-only-if over the facts of its inputs, down to the
bytes signed, and each refusal is named for the first fact that fails.

**The Python chain verifier** (`PythonChain`) is a second verifier over the objects presented: ids are
their text, a consent is signed as presented, and times go through Python's own two readers, which are
parameters known only to read the E.6 profile and, for consents, no fraction. `Parity` compares it with
the Rust one. The Python consumers are modelled on the Rust verdict, which
`Parity.VerdictsAgreeWithoutConsents` shows is Python's for every presentation of conforming documents.

**Concurrency** (`Mint`, `Interleaving`, `Accounts`). A mint call is split at every lock and await:
each turn of the ancestry walk, the nonce lock, signing, the lineage write, the audit write. `World`
holds the shared stores and every call; `Next` takes any enabled step of any call, a revocation, the
loss of any part of the lineage store (which covers `clear_lineage`), or a restart: a new process under
the same kernel key, whose nonces, lineage and audit log start empty, whose revocation store starts in
any state, and which knows nothing of the calls under way. Lineage and audit writes may fail. A step
reads whatever clock it likes: time is not assumed to move forward. `verify_vaid` is split the same way,
one lineage lookup at a time (`Issuer`, `RevocationRuns`).

**Runs** (`MintRuns`, `RevocationRuns`, `SoloRuns`, `RunWitnesses`, `RootSeeds`). A run is any list of
events, each possible where it occurs. What is assumed of the outside is `Interleaving.IsPossible`: a new call has a
new name, a root seed names no parent, the parent handed to `mint_child` was returned by this mint (its
authentication is the caller's), and a fresh id is not one already issued. `SoloCallIsARun` ties the
service's methods to runs, so what is proved of runs holds of them. What survives a restart: every issued
chain stays linked, contained and within the depth limit, the two verifiers' verdicts on it, exact
verification, and what a refused call can have changed. What is a promise of one process only: single-use
nonces, the audit log, and the permanence of a revocation; `RunWitnesses` shows a nonce and a revocation
that a restart forgets.

## Where the code and what is said of it differ

The model follows the code. Each difference about behaviour is proved: by an exact condition, by an input
that shows it, and mostly by both.

- A depth limit of 1024 is accepted (`mint.rs:51-65`) but an ancestry of more than 1024 documents is
  never assembled (`revocation.rs:147`). `SoloRuns.LimitOf1024MintsTooDeep` is the run that shows it:
  1025 mints, the last of which nobody can verify. With a limit of 1023 or less it cannot happen.
- A root mint forwards the parent its seed names without a check (`mint.rs:417`, `mint.rs:429`).
  `RootSeeds` says exactly when a document naming a parent of this issuer, at any depth, still verifies,
  and gives one that does not; `CrossIssuer` says it for a parent of another issuer.
- Proof of possession is documented as fresh within 300 s; the skew is truncated to whole seconds
  first (`mint.rs:361`), so anything under 301 s passes (`Mint.FreshnessWindow`).
- A parent boundary with the entry `prefix ""` holds every resource, yet an empty child boundary under
  it is refused (`mint.rs:150-152`); `ScopeRules.AttenuationCorner` shows this is the only such case.
- A duplicate member name is not a document, says E.7a of the encoding specification. The scanner
  compares raw spellings, as its own comment admits; `DuplicateNames` shows that it misses `"a"` beside
  `"\u0061"`, never invents a duplicate, agrees with a parser wherever no name holds a backslash, and
  says of each document exactly when the two differ.
- The order of faults is normative for all implementations (`emit_chain_expiry_vector.rs:212`), but the
  Rust and the Python chain verifier ask a consent's checks in different orders (`chain.rs:508-531`;
  `python/vaid-mint/vaid_mint/chain.py:421-442`). On presentations with canonical ids, whole-second times
  and no unknown member in a consent they accept together, and `Parity` says exactly when they name
  different faults. Outside that neither holds, and `ParityWitnesses` has a presentation for each way: a
  consent issued within a second (Rust accepts, Python calls it lapsed); a member added to a signed consent
  (Rust accepts, Python does not) and one signed with it (the other way round); an id in upper case (Rust
  accepts, Python does not); a document expiry only Python's reader can read (Python accepts, Rust does not).
- Rust reads a consent and signs what it writes back; `PresentedConsents` shows that its verdict is about
  the object presented exactly when that is spelled as it would write it.
- The bridge says a token never outlives its leaf. `int()` truncates towards zero, so before 1970 a
  fractional expiry moves later; `TokenLife` gives the exact condition and a token that outlives its leaf.
- `verify_vaid` passes an issued root whose boundary has an entry of an unknown kind, which the
  standing verdict refuses: `RunWitnesses.UnreadableRootPasses` is the run.
  `RevocationRuns.StandingAgreesWithIssuer` shows no other document differs.
- A comment only: the text above `verify_chain_at` says expiry is not checked (`chain.rs:362-364`); the expiry of every
  ancestor is (`chain.rs:432-436`), that of the leaf is not.
- Each presented ancestor's domain is said to be checked against its key. One under no trusted key,
  displaced by a later document with the same id, is not looked at: `PresentationWitness` has one in a
  presentation that stands. `Presentation.PresentedIsBoundOrDisplaced` shows that nothing else escapes,
  and no document on the chain is of that kind.

## Model

| member | source | states |
|---|---|---|
| Duplicates.ScanJsonString | crates/vaid-mint/src/document.rs:983-1004 | on arbitrary bytes, stays in bounds and returns the raw text up to the first unescaped quote and the index after it, or nothing if there is none |
| Duplicates.HasDuplicateMemberNames | crates/vaid-mint/src/document.rs:925-973 | the index loop over a stack of name sets terminates in bounds on arbitrary bytes and computes `Scan` |
| Duplicates.ScannerIsExact | crates/vaid-mint/src/document.rs:925-973 | for every JSON tree with any whitespace, the scanner fires iff some object at some depth has two members with the same raw spelling |
| DuplicateNames.ScannerInventsNothing | crates/vaid-mint/src/document.rs:975-1004 | whatever a parser does with escapes, a duplicate reported is one for that parser too |
| DuplicateNames.ScannerDiffersExactlyWhen | crates/vaid-mint/src/document.rs:975-1004 | document by document, scanner and a parser that unescapes as RFC 8259 section 7 says differ iff no object repeats a spelling and some object has two differently spelled names that unescape alike |
| DuplicateNames.ScannerAgreesWithoutEscapes | crates/vaid-mint/src/document.rs:989-996 | they agree on every text in which no member name holds a backslash |
| DuplicateNames.EscapedNameIsMissed | crates/vaid-mint/src/document.rs:975-1004 | a concrete object with an escaped duplicate name, which unescaping shows and the scanner passes |
| IssuerIdentity.TrustDomainIsExact | crates/vaid-mint/src/issuer_identity.rs:95-119 | a name is a trust domain iff it is two or more labels dotted together, of at most 253 characters, each label of 1 to 63 lower-case letters, digits and inner hyphens, the last not a number |
| IssuerIdentity.LabelsAreUnique | crates/vaid-mint/src/issuer_identity.rs:99 | a list of labels without dots is what splitting their dotted name gives back |
| ScopeRules.PrefixContainsIsTokenPrefix | crates/vaid-mint/src/document.rs:839-854 | a prefix contains a resource iff its token list is a prefix of the resource's, for all strings |
| ScopeRules.TokensSpellTheString | crates/vaid-mint/src/document.rs:839-854 | the tokens joined are the string; each is one separator or a run without one, and no two runs are adjacent |
| ScopeRules.PrefixContainsIsAnOrder | crates/vaid-mint/src/document.rs:839-854 | containment is reflexive, transitive, antisymmetric and never wider than `starts_with` |
| ScopeRules.CheckScope | crates/vaid-mint/src/document.rs:819-830 | the loop answers true iff every entry is a `prefix` entry with a string and the boundary is empty or some entry's tokens begin the resource's |
| ScopeRules.ScopeContainsIsExact | crates/vaid-mint/src/document.rs:819-830 | a boundary contains a resource iff every entry is a `prefix` entry with a string, and it is empty or some entry's token list begins the resource's |
| ScopeRules.UnreadableEntryRefusesAll | crates/vaid-mint/src/document.rs:819-830 | any other entry, at any position, refuses every resource, whatever else the boundary holds |
| ScopeRules.AttenuatedIsWithin | crates/vaid-mint/src/mint.rs:141-164 | an attenuated child boundary holds no resource its parent's does not |
| ScopeRules.AttenuationIsExact | crates/vaid-mint/src/mint.rs:141-164 | on readable boundaries the rule is resource inclusion, plus: an empty child needs an empty parent |
| ScopeRules.AttenuationCorner | crates/vaid-mint/src/mint.rs:150-152 | a delegation that widens nothing is refused iff the child is empty and the parent has a match-all entry |
| ScopeRules.AttenuationIsAPreorder | crates/vaid-mint/src/mint.rs:118-164 | unknown kind iff either side is unreadable, equal sides included; reflexive exactly on readable boundaries; transitive |
| ScopeRules.NarrowerIsExact | crates/vaid-mint/src/mint.rs:118-164 | unreadable sides included: attenuated iff both sides can be read, every resource of the child is one of the parent's, and an empty child has an empty parent |
| Document.PresentedRoundTrip | crates/vaid-mint/src/document.rs:250-325 | a parsed document is written back member for member as presented iff `sig_version` was present |
| Document.PresentedMember | crates/vaid-mint/src/document.rs:152-157 | each member survives as presented: UUID spelling, absent against null `parent_vaid`, unknown members |
| Document.ParsedIsParsed | crates/vaid-mint/src/document.rs:235-241 | what parsing yields has spellings that denote its UUIDs and well-formed boundary entries |
| Document.ParsesExactlyWhen | crates/vaid-mint/src/document.rs:250-325 | an object is a document iff it has every named member but `sig_version` and `parent_vaid`, and each member it has is of its type, boundary entries down to their kind and value |
| Document.ParsedReadsItsMembers | crates/vaid-mint/src/document.rs:250-325 | the parsed document says member by member what its object says |
| Document.DocumentRoundTrip | crates/vaid-mint/src/document.rs:227-241 | writing a document and parsing it again gives that document |
| Document.SignatureCoversEverythingElse | crates/vaid-mint/src/document.rs:887-897 | the signed message does not depend on the signature and determines every other member |
| Document.EqualDigestsMeanEqualDocuments | crates/vaid-mint/src/document.rs:887-897 | equal signing messages mean equal documents up to `kernel_signature` |
| Verify.AuthenticityIsExact | crates/vaid-mint/src/verify.rs:293-315 | authentic iff scheme 4, a well-formed domain, the key's own thumbprint, the lineage text `parent:agent` or `GENESIS:agent`, and the signature over the object with its signature nulled; otherwise the first of these that fails |
| Verify.StandingVerdictIsExact | crates/vaid-mint/src/verify.rs:341-370 | the standing verdict: authenticity, then life, then a readable boundary, then the revocation status; the first that fails |
| Verify.SignatureFixesDocument | crates/vaid-mint/src/verify.rs:293-315 | two authentic documents share a signature iff they are the same document under the same key |
| Attestation.BundleAttestations | crates/vaid-mint/src/attestation.rs:305-319 | a consent is found only under the hop it names, and was presented |
| PresentedConsents.ConsentRoundTrip | crates/vaid-mint/src/attestation.rs:104-151 | a presented consent survives reading and writing iff its ids are canonical, its times as chrono writes them, and it has no other member |
| PresentedConsents.AuthenticityCompared | crates/vaid-mint/src/attestation.rs:233-285 | the Rust verdict is about the object presented iff that is so: then Python gives the same verdict, and otherwise no signature satisfies both |
| PresentedConsents.AddedMemberIsUnseen | python/vaid-mint/vaid_mint/attestation.py:152-195 | any member added to any consent leaves the Rust verdict as it was and breaks the Python one |
| Revocation.AssembleLineage | crates/vaid-mint/src/revocation.rs:142-161 | the loop terminates for any resolver and computes the walk |
| Revocation.AssemblyIsExact | crates/vaid-mint/src/revocation.rs:142-161 | complete with a list iff the list is the ancestry from a known root down to the leaf, duplicate-free, within 1024 ids, every hop above the leaf's own parent a resolver's answer |
| Revocation.AncestryIsUnique | crates/vaid-mint/src/revocation.rs:142-161 | a leaf has at most one ancestry, of whatever length |
| Revocation.PartialViewsNeverMislead | crates/vaid-mint/src/revocation.rs:142-161 | a resolver that answers truly or not at all assembles the true ancestry or none |
| Revocation.InMemoryRevocationList.Revoke | crates/vaid-mint/src/revocation.rs:217-222 | revoking into an absent store makes it vouch for just that id; into a vouching one it adds it |
| Revocation.InMemoryRevocationList.CheckLineage | crates/vaid-mint/src/revocation.rs:247-261 | unavailable if absent, revoked iff any id of the lineage is, clean otherwise |
| Revocation.InMemoryLineageStore.Record | crates/vaid-mint/src/revocation.rs:430-436 | the store gains or replaces one entry |
| Chain.PresentedBundle | crates/vaid-mint/src/chain.rs:91-95 | each document is filed under its own id and nothing else is |
| Chain.CheckConsent | crates/vaid-mint/src/chain.rs:487-551 | the early returns for a cross-key hop give the first fault of the declared checks |
| Chain.VerifyChainAt | crates/vaid-mint/src/chain.rs:365-554 | the early-return loops refine the first-fault verdict: authenticity, assembly, a lapsed ancestor, then hops root first |
| Chain.FirstFaultAt | crates/vaid-mint/examples/emit_chain_expiry_vector.rs:212 | a first-fault verdict is that of the first check that fails |
| ChainLaws.AuthenticIsExact | crates/vaid-mint/src/chain.rs:384-394 | a presented document is authentic iff its thumbprint's key is accepted and those five facts hold under it |
| ChainLaws.HopVerdictIsExact | crates/vaid-mint/src/chain.rs:440-550 | the verdict on every hop: not attenuated unless the child is inside its parent; then one key settles it, a missing consent is inauthentic, and a consent found is at fault as it is at fault |
| ChainLaws.ConsentIsExact | crates/vaid-mint/src/chain.rs:487-551 | the first fault of a consent: another issuer's, for another child, not signed over its version 1 terms under the accepted key, outside its window, not covering the hop |
| ChainLaws.VerdictIsExact | crates/vaid-mint/src/chain.rs:365-554 | every verdict, each exactly when: a document not genuine, then no chain presented, then a dead ancestor, then the hops |
| ChainTheorems.PresentedChainIsExact | crates/vaid-mint/src/chain.rs:396-416 | the chain verified is exactly the presented one from leaf to root; an id on it never lacks its document |
| ChainTheorems.HopMeaning | crates/vaid-mint/src/chain.rs:440-550 | a hop passes iff the child is contained and, across keys, current consent for the pair covers it |
| ChainTheorems.FirstFailingHop | crates/vaid-mint/src/chain.rs:440-554 | the hops give the verdict of the first that fails, root first |
| ChainTheorems.AttenuatedInstants | crates/vaid-mint/src/chain.rs:384-554 | `Attenuated` iff everything no clock decides holds, the instant is no later than any ancestor's expiry and inside every used consent's window widened by 300 s at its start |
| ChainTheorems.AttenuatedIsAnInterval | crates/vaid-mint/src/chain.rs:432-436 | those instants are convex, and closed downwards when no hop crosses a key |
| ChainTheorems.EndToEndSoundness | crates/vaid-mint/src/chain.rs:440-476 | between any two documents of an attenuated chain, resources, capabilities and expiry only shrink |
| ChainTheorems.LiveLeafMeansLiveChain | crates/vaid-mint/src/chain.rs:474-476 | whenever the leaf is live every document above it is |
| ChainTheorems.LapseIsDecidedByTheParent | crates/vaid-mint/src/chain.rs:432-436 | under hop containment the lapse test over all ancestors is the test on the leaf's parent |
| ChainTheorems.CrossKeyHopsAreConsented | crates/vaid-mint/src/chain.rs:480-551 | every cross-key hop of an attenuated chain has a presented, current, authentic consent for that pair, under the parent's thumbprint, naming the child's domain and tenant, between parent and child in authority |
| ChainTheorems.TenantConstantUnderOneKey | crates/vaid-mint/src/chain.rs:443-462 | domain and tenant are constant along any stretch under one key |
| ChainTheorems.OffChainAttestationIsInert | crates/vaid-mint/src/attestation.rs:305-319 | a consent for a pair that is not a hop never changes the verdict |
| ChainTheorems.PresentationOrderIsIrrelevant | crates/vaid-mint/src/chain.rs:91-95 | documents with distinct ids may come in any order |
| ChainTheorems.ExtraDocumentIsInert | crates/vaid-mint/src/chain.rs:384-416 | an authentic document under a new id changes only a verdict of `Unverifiable` |
| Parity.HopVerdictsCompared | python/vaid-mint/vaid_mint/chain.py:410-461 | for conforming consents (canonical ids, whole-second times, no other member), a hop passes in both verifiers or neither; their faults differ iff the consent names another child and is also inauthentic or not current |
| Parity.VerdictsCompared | python/vaid-mint/vaid_mint/chain.py:281-461 | for conforming presentations (as above, and documents with canonical ids and E.6 expiries), both verifiers accept or neither; their faults differ iff the chain is sound up to such a hop |
| Parity.VerdictsAgreeWithoutConsents | python/vaid-mint/vaid_mint/chain.py:281-461 | with no consent presented, conforming documents get the same verdict from both |
| ParityWitnesses.VerdictsMayPart | python/vaid-mint/vaid_mint/chain.py:421-442 | a conforming presentation that Rust calls not attenuated and Python inauthentic |
| ParityWitnesses.FractionalConsentParts | python/vaid-mint/vaid_mint/attestation.py:198-244 | a consent issued within a second: attenuated in Rust, consent expired in Python |
| ParityWitnesses.AddedMemberParts | python/vaid-mint/vaid_mint/attestation.py:152-160 | a consent with a member added after signing: attenuated in Rust, inauthentic in Python |
| ParityWitnesses.SignedMemberParts | crates/vaid-mint/src/attestation.rs:233-245 | a consent signed with an unknown member: inauthentic in Rust, attenuated in Python |
| ParityWitnesses.UpperCaseIdParts | python/vaid-mint/vaid_mint/document.py:69-78 | a root with an upper-case id under the canonical lineage hash: attenuated in Rust, inauthentic in Python |
| ParityWitnesses.OddExpiryParts | python/vaid-mint/vaid_mint/document.py:157-175 | a document whose expiry only the Python reader reads: not attenuated in Rust, attenuated in Python |
| CrossIssuer.AttestedHopPasses | crates/vaid-mint/src/issuer.rs:381-422 | a hop under consent its parent's issuer signed passes iff the child is contained, the consent covers it, and the instant is in the whole-second window |
| CrossIssuer.AttestedChainPasses | crates/vaid-mint/src/issuer.rs:381-422 | end to end under both keys: a document of one issuer below a whole chain of another, with that issuer's consent, is attenuated iff there is room, the parent is live, it is contained and covered, and the consent current |
| Mint.FreshnessWindow | crates/vaid-mint/src/mint.rs:361-367 | a proof is fresh iff its skew is under 301 s |
| Mint.ClampIsFloorOfTheEarlier | crates/vaid-mint/src/issuer.rs:471-493 | a child's expiry is the whole second of min(now + TTL, parent expiry) and never after the parent's |
| Mint.BoundedFlagIsExact | crates/vaid-mint/src/mint.rs:655-657 | for a whole-second parent, the response's flag is set iff the parent's expiry is at most now + TTL |
| Mint.ChildIsBornLive | crates/vaid-mint/src/issuer.rs:471-493 | a child of a whole-second parent is live when issued iff the parent is |
| Mint.IssuedIsAuthentic | crates/vaid-mint/src/issuer.rs:494-523 | what the issuer signs authenticates under its key, with its id and the seed's parent |
| MintLaws.ProofIsExact | crates/vaid-mint/src/mint.rs:347-393 | a proof passes iff it is there, under 301 s off the clock, its nonce unspent, and its signature by the registered key over all nine members of the payload; otherwise the first of these that fails |
| MintLaws.DelegationIsExact | crates/vaid-mint/src/mint.rs:508-596 | a delegation is admitted iff the ancestry is complete and within the limit, the tenant equal, the parent named is this one, scope and capabilities inside the parent's, and the parent alive; otherwise the first of these that fails |
| MintLaws.IssuedIsExact | crates/vaid-mint/src/issuer.rs:471-523 | what is issued: every member from the seed, the issuer or the new id, the hashed lineage text, whole-second times, the sooner end, and the kernel signature over all of it; nothing under an unreadable ceiling |
| MintLaws.AuditDescribes | crates/vaid-mint/src/mint.rs:662-681 | the audit entry of a mint says of document and parent what they say of themselves |
| Interleaving.MintChecksWhatVerifierAsks | crates/vaid-mint/src/mint.rs:539-574 | the tenant, scope and capability checks of a delegation hold iff the issued document is contained in its parent as the chain verifier reads it |
| Interleaving.WalkTurnIsSound | crates/vaid-mint/src/revocation.rs:146-157 | turn by turn, under any loss between turns, the depth walk holds only the parent's true ancestors |
| Interleaving.NextIsSound | crates/vaid-mint/src/mint.rs:401-687 | every event, restarts included, keeps: each issued chain linked, contained, within the depth limit, of this issuer, its ancestors recorded; lineage answers true; no re-check by the mint ever refuses this issuer |
| Accounts.NextIsAccounted | crates/vaid-mint/src/mint.rs:361-393 | every event keeps, for the calls of the process now running: spent nonces distinct and remembered, one audit entry per returned call |
| Accounts.NextIsBounded | crates/vaid-mint/src/mint.rs:482-687 | every event, restarts included, keeps what a call has changed within how far it got |
| MintRuns.NonceBacksOneMint | crates/vaid-mint/src/mint.rs:369-381 | over every interleaving, no nonce backs two successful mints of one process |
| MintRuns.RefusalsLeaveNoTrace | crates/vaid-mint/src/mint.rs:482-607 | across restarts too: a refusal before the proof is spent changed no store; later ones changed only what precedes them; the two late denials never occur with this issuer |
| MintRuns.ReturnedIsRecordedAndAudited | crates/vaid-mint/src/mint.rs:662-687 | a returned document was recorded; in the process that returned it, its audit entry states this mint and is no other's |
| MintRuns.EveryEntryIsAMint | crates/vaid-mint/src/mint.rs:662-687 | every audit entry belongs to a mint the running process returned |
| MintRuns.DepthAndAuthorityAreSafe | crates/vaid-mint/src/mint.rs:508-531 | under arbitrary lineage loss and restarts every issued document has true depth within the limit and holds no more, and lives no longer, than any document above it |
| MintRuns.LimitOneNeedsARoot | crates/vaid-mint/src/mint.rs:508-531 | with limit 1, for a completely arbitrary resolver, only a parent naming no parent passes |
| RunLaws.ReturnedIsProven | crates/vaid-mint/src/mint.rs:384-390 | on every run, a returned document carries its seed and the kernel's signature, and wherever a key was registered, as for every child, that key signed the document's own contents with this mint's nonce |
| RunLaws.WasAdmitted | crates/vaid-mint/src/mint.rs:539-596 | on every run, behind each mint past its checks is the event that let it: a root's start, permitted, or a child's check, at which its parent was live and held all it asks for, with the proof within its window |
| RunLaws.AuditDescribesReturned | crates/vaid-mint/src/mint.rs:662-687 | while its process lives, the entry a returned mint left describes its document and its parent |
| MintRuns.MintedChainVerdict | crates/vaid-mint/src/chain.rs:365-554 | on every run, an issued document with its ancestors is attenuated while no ancestor has lapsed and expired otherwise; unverifiable only beyond 1024 documents, which a limit up to 1023 excludes |
| MintRuns.ExtendedChainVerdict | crates/vaid-mint/src/chain.rs:365-554 | below a sound chain under one key, any authentic document is unverifiable for depth, expired for its parent, or gets the verdict of its own hop |
| RevocationRuns.AssemblyIsTheTruth | crates/vaid-mint/src/revocation.rs:142-161 | the issuer assembles the true ancestry exactly when its store still knows every ancestor and there are at most 1024 |
| RevocationRuns.StatusIsExact | crates/vaid-mint/src/issuer.rs:449-454 | a check that looks each ancestor up at any moment and asks the revocation store at another: unavailable, clean or revoked, each exactly when |
| RevocationRuns.VerificationIsExact | crates/vaid-mint/src/issuer.rs:607-627 | such a check passes an issued document iff it is unexpired, each ancestor was known when looked up, there are at most 1024, and the store asked vouches for them all |
| RevocationRuns.PassesIsExact | crates/vaid-mint/src/issuer.rs:607-627 | the same for an undisturbed check: passes iff unexpired, true ancestry unrevoked in a vouching store, and that ancestry assembled |
| RevocationRuns.StatusNowIsExact | crates/vaid-mint/src/issuer.rs:449-454 | the three statuses of an undisturbed check, each exactly when |
| Issuer.UndisturbedCheck | crates/vaid-mint/src/issuer.rs:607-627 | a check nobody interleaves with is the atomic one |
| Issuer.VerifiesVaidIsExact | crates/vaid-mint/src/issuer.rs:607-627 | any document, of whatever origin, passes iff it is of scheme 4, live, signed under this kernel key over all it presents, and of a known ancestry with nothing in it revoked in a store that vouches |
| RevocationRuns.WithoutLossOnlyRevocationStops | crates/vaid-mint/src/issuer.rs:607-627 | with no loss and depth up to 1023, passes iff unexpired and nothing above it revoked in a vouching store |
| RevocationRuns.RevocationIsPermanent | crates/vaid-mint/src/issuer.rs:430-454 | once an id is revoked, while the process lives, no check that asks the store afterwards passes a document with it in its ancestry, issued before or after, whenever its lookups were made |
| RunLaws.RevokedExactly | crates/vaid-mint/src/issuer.rs:430-447 | within one process the store holds exactly what it started with and what was revoked since, and vouches iff it did or anything was |
| RevocationRuns.RestartForgetsAncestors | crates/vaid-mint/src/issuer.rs:250-283 | after a restart exactly the unexpired roots the new store vouches for pass |
| RunWitnesses.NonceBacksTwoProcesses | crates/vaid-mint/src/mint.rs:319-334 | a run in which one proof mints before and again after a restart |
| RunWitnesses.RestartForgetsARevocation | crates/vaid-mint/src/issuer.rs:339-344 | a run after which a revoked root passes again, the process restarted into a store that vouches for nothing revoked |
| RevocationRuns.StandingAgreesWithIssuer | crates/vaid-mint/src/verify.rs:341-370 | `verify_vaid` and the standing verdict agree on every issued document save a root with an unreadable boundary |
| RunWitnesses.UnreadableRootPasses | crates/vaid-mint/src/issuer.rs:607-627 | a run that issues a root with a boundary of an unknown kind, which the issuer passes and the standing verdict refuses |
| SoloRuns.SoloCallIsARun | crates/vaid-mint/src/mint.rs:401-687 | a call stepped alone is a run of the interleaved machine with the same stores and outcome |
| SoloRuns.EveryDepthIsReached | crates/vaid-mint/src/mint.rs:508-527 | at every depth up to 1023 a run mints a document that the verifier attenuates and its issuer passes |
| SoloRuns.LimitOf1024MintsTooDeep | crates/vaid-mint/src/mint.rs:51-65 | under the limit 1024 a concrete run returns a document no verifier and not its own issuer ever passes |
| RootSeeds.RootVerifiesAlone | crates/vaid-mint/src/mint.rs:401-460 | presented alone, a root mint's document is attenuated iff its seed named no parent, else unverifiable |
| RootSeeds.RootNamingAParent | crates/vaid-mint/src/mint.rs:412-434 | below the document it names, at any depth: unverifiable if that is 1024 documents deep, expired if it has lapsed, else attenuated iff tenant, scope, capabilities and unclamped expiry would have passed |
| RootSeeds.RootNamingAnIssued | crates/vaid-mint/src/mint.rs:412-434 | so for a root mint naming any document any run has issued |
| RootSeeds.RootMayOverreach | crates/vaid-mint/src/mint.rs:412-434 | a root mint that returns a document no verifier attenuates |
| Service.WalkingFinishes | crates/vaid-mint/src/mint.rs:508-521 | alone on the stores, the turn-by-turn walk is lineage assembly |
| Service.RootOutcome | crates/vaid-mint/src/mint.rs:401-460 | alone, a root mint returns iff permitted and, for a registered key, proven; a refusal changes nothing but the nonce of a proof in its window |
| Service.ChildOutcome | crates/vaid-mint/src/mint.rs:477-688 | alone, a child mint returns iff its parent may delegate this and the proof is good; a refused delegation changes nothing, and a refused proof at most spends its nonce |
| Service.IssuingFinishes | crates/vaid-mint/src/issuer.rs:457-533 | alone, with writes that succeed, an accepted proof ends in one document recorded and audited, or in the ceiling's refusals |
| Service.ReferenceIssuer.FromSeed | crates/vaid-mint/src/issuer.rs:212-236 | an issuer exists iff its trust domain is well formed, with empty lineage and an absent revocation store |
| Service.ReferenceIssuer.BuildAndSignVaid | crates/vaid-mint/src/issuer.rs:457-533 | issues the stamped and signed document and records its parent, or issues and records nothing under an unreadable ceiling |
| Service.ReferenceIssuer.RevocationStatus | crates/vaid-mint/src/issuer.rs:449-454 | the status of the assembled lineage; the store is not asked about an incomplete one |
| Service.ReferenceIssuer.VerifyVaid | crates/vaid-mint/src/issuer.rs:607-627 | scheme, expiry, revocation and signature, all required |
| Service.MintService.WithMaxDelegationDepth | crates/vaid-mint/src/mint.rs:319-334 | a service exists iff the limit is from 1 to 1024 |
| Service.MintService.VerifyPopAtMint | crates/vaid-mint/src/mint.rs:347-393 | no fault iff the registered key signed this seed, with an unspent nonce, under 301 s off the clock; the nonce is spent iff the proof is within that window |
| Service.MintService.MintRoot | crates/vaid-mint/src/mint.rs:401-460 | succeeds iff permitted and, for a registered key, proven, and has then recorded and audited one document stamped for the seed; stores and result are those of the stepped call alone |
| Service.MintService.MintChild | crates/vaid-mint/src/mint.rs:477-688 | succeeds iff the parent is there, live, of known and permitted depth, holds all the seed asks for, and the proof is good; what then exists is one stamped document, recorded and described in the audit; stores and result are those of the stepped call alone |
| Trust.Load | python/vaid-adk/vaid_adk/_verify.py:221-271 | loads iff every entry is well formed and no key repeats, reporting the first bad entry; then files each key under its own thumbprint with its one domain |
| Trust.EntryFaultIsExact | python/vaid-adk/vaid_adk/_verify.py:224-257 | an entry is well formed iff it is an object with both strings, the key of them decoding to 32 bytes; and when each fault is named |
| Trust.LookupsAreExact | python/vaid-adk/vaid_adk/_verify.py:297-309 | a key resolves to itself with a domain iff an entry paired them |
| Presentation.CheckStanding | python/vaid-adk/vaid_adk/_verify.py:416-507 | the ordered guards refine the standing refusal |
| Presentation.VerifyPresentation | python/vaid-adk/vaid_adk/_verify.py:359-550 | the ordered guards refine the presentation's code |
| Presentation.StandingIsExact | python/vaid-adk/vaid_adk/_verify.py:416-507 | nothing is refused iff a chain stands: authentic, linked, contained, every document live and bound to its key's domain, every presented boundary readable |
| PresentationLaws.RefusalIsExact | python/vaid-adk/vaid_adk/_verify.py:416-507 | a presentation that does not stand is refused for the first fact that fails, from the leaf's trusted key and domain to the chain's verdict |
| PresentationLaws.CodesNameTheFault | python/vaid-adk/vaid_adk/_verify.py:91-106 | the code given for each fault of a presentation, `Allowed` for none |
| PresentationLaws.AllowedIsExact | python/vaid-adk/vaid_adk/_verify.py:359-550 | allowed iff something is presented, it stands as a chain, its leaf holds the resource and the capability, and the check clears exactly the chain's ids |
| PresentationLaws.StandingCodeIsExact | python/vaid-adk/vaid_adk/_verify.py:509-550 | the code of a presentation that stands: scope, then capability, then the check's three answers |
| Presentation.LeafCheckIsEnough | python/vaid-adk/vaid_adk/_verify.py:509-550 | when allowed, every document of the chain holds the resource and capability, is live and bound, and its id (for canonical spellings, which Python hands to the check as text) is unrevoked |
| Presentation.IndeterminateMeansUnavailable | python/vaid-adk/vaid_adk/_verify.py:529-546 | the branch for a lineage that fails to assemble is unreachable: indeterminate means the check could not answer |
| Presentation.PresentedIsBoundOrDisplaced | python/vaid-adk/vaid_adk/_verify.py:474-501 | a presented document is bound to its key's domain, or is untrusted and displaced by a later one of its id |
| PresentationWitness.DisplacedDocumentIsNotLookedAt | python/vaid-adk/vaid_adk/_verify.py:488-501 | a presentation that stands with a displaced document under no trusted key |
| Claims.BuildSubAndAct | python/vaid-jwt-bridge/vaid_jwt_bridge/claims.py:18-36 | `sub` and nested `act` flatten back to the chain's ids, root first |
| Claims.FlatteningIsInvertible | python/vaid-jwt-bridge/vaid_jwt_bridge/claims.py:18-36 | a list of ids has exactly one `sub` and `act`, the last id outermost, and they give back the list |
| Claims.ChainDigestFixesDocuments | python/vaid-jwt-bridge/vaid_jwt_bridge/claims.py:39-44 | equal chain digests mean the very same documents |
| Exchange.Exchange | python/vaid-jwt-bridge/vaid_jwt_bridge/exchange.py:137-364 | the ordered guards refine the refusals; otherwise a token naming exactly the verified chain, with the leaf's id, domain, boundary and capabilities, the digest of every document, and authority each of them holds, ending at its TTL or at the leaf's expiry truncated to a second, whichever is sooner |
| Exchange.TokenAuthorityIsHeld | python/vaid-jwt-bridge/vaid_jwt_bridge/claims.py:47-60 | every resource and capability the token's claim contains is held by every document on the chain |
| PresentationLaws.ExchangeSucceedsExactlyWhen | python/vaid-jwt-bridge/vaid_jwt_bridge/exchange.py:137-344 | a token is issued iff it is asked for with a leaf, an audience and a known kind, the presentation stands as a chain the check clears, and a whole second of life is left |
| PresentationLaws.EarlyReasonIsExact | python/vaid-jwt-bridge/vaid_jwt_bridge/exchange.py:167-300 | a request at fault is denied for the first of its faults, and a presentation that does not stand for the first of its own |
| PresentationLaws.StandingReasonIsExact | python/vaid-jwt-bridge/vaid_jwt_bridge/exchange.py:314-345 | past both, an exchange is denied for a revoked chain, for a check that cannot answer, or for want of a whole second of life, and for nothing else |
| PresentationLaws.ReasonsNameTheFault | python/vaid-jwt-bridge/vaid_jwt_bridge/exchange.py:66-81 | the reason given for each fault of a presentation |
| PresentationLaws.TruncatesTowardsZero | python/vaid-jwt-bridge/vaid_jwt_bridge/exchange.py:337-344 | seconds drop their fraction: down from 1970 on, up before |
| TokenLife.TruncationIsExact | python/vaid-jwt-bridge/vaid_jwt_bridge/exchange.py:337-339 | a token ends by its leaf's expiry iff that is a whole second, not before 1970, or beyond the TTL |
| TokenLife.TokenLivesWithinItsChain | python/vaid-jwt-bridge/vaid_jwt_bridge/exchange.py:296-344 | `iat < exp <= iat + ttl`, and at every instant up to `exp` the whole chain is live and would be accepted again |
| TokenLife.TokenLifeIsExact | python/vaid-jwt-bridge/vaid_jwt_bridge/exchange.py:330-344 | the leaf lives through the token's life iff truncation is safe |
| TokenLife.TokenMayOutliveItsLeaf | python/vaid-jwt-bridge/vaid_jwt_bridge/exchange.py:337-339 | a token issued before 1970 that ends after its leaf has expired |

## Left out

- Ed25519, SHA-256, RFC 8785, thumbprints and UUID generation: idealized as above; a fresh id is a parameter that was not issued before.
- RFC 3339 and calendar parsing, leap seconds and year overflow: an instant is an integer and a parse is given with the string.
- UUID syntax: the parser is any function from spellings to ids. The Python consumers compare ids as text; `Presentation` and `Exchange` compare what they denote, which is the same for canonical spellings (`Parity.VerdictsAgreeWithoutConsents`).
- Parity.VerdictsCompared: asks for conforming presentations; outside them the two verifiers really differ, as the witnesses show, and no condition beyond those is given.
- JSON text other than for the duplicate scanner: documents are maps of values, and the Python layers see documents of the right shape.
- Strict base64url decoding of configured keys: a parameter, any partial function to keys.
- Floating point in `timestamp()` and microsecond rounding in Python: instants are exact.
- Duck-typed key resolvers: the Python consumers are modelled with the trust configuration their package supplies.
- Injected revocation and lineage backends, authorization gates and audit sinks: modelled as writes that may fail and a decision drawn from outside.
- Interleaving.IsPossible: root seeds with a parent are outside runs; `RootSeeds` treats them. The parent of a delegation is one this mint returned, because its authentication belongs to the caller.
- RevocationRuns.RevocationIsPermanent: `mark_unavailable` is not an event, because dropping a store forgets its revocations by design.
- Service.MintService.MintRoot: the in-memory stores never fail, so the methods ask for writes that succeed; failing writes are in the interleaved machine.
- TokenLife.TokenLivesWithinItsChain: asks for safe truncation, without which it is false; `TokenLifeIsExact` gives both directions.
- The A2A verifier, the TypeScript implementation, caller binding, verdict codes, header signing, services, adapters, vector emitters and the evidence bundle: the same procedures again, or plumbing without state.
