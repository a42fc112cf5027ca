# Verification of the policy signing service

A Dafny model of what the signing service decides: which bytes are signed, who may sign them, and
how generated policy text is rewritten before it is signed. The main results are these.

* **Signing inputs.** CE-v1 is a codec (`CanonicalEncoding`): a decoder recovers exactly the record
  list. On top of it, descriptors and keyrings with the same canonical bytes are equivalent, and
  equivalent ones have the same bytes (`Descriptor`, `Keyring`, over `StableSort`), for lengths that
  the encoder takes (`LengthBounds`); and from the bytes alone every literal label is read back with
  its own field (`CanonicalLayout`). The five kinds of signing input never share bytes
  (`SigningMessages`). Hence provenance: whatever `verify_signing_inputs` accepts was signed, up to
  equivalence, by the keys it names (`SigningInputs`).
* **Artifacts.** Exactly when an artifact is signed. Whatever is signed verifies, equal inputs mean equal texts and metadata, and a
  signature has two spellings and one value (`Artifact`, `TextCodecs`). Escalation comes with an
  exact set of capabilities (`CapabilityProfiles`).
* **Rendering.** Eight replacements in turn are one simultaneous substitution of the values as the
  later slots rewrite them; of the values themselves exactly when no used value contains an opening
  brace pair. For which values a text determines them is settled exactly (`RenderedValues`). The
  shipped template is an instance (`Template`, `ServiceTemplate`, `TextRewriting`).
* **The signing handler.** Over every run of the registry, what is signed rests on the last owner of
  the organisation; and the signing input of an artifact binds the whole descriptor, although the
  core digest in it leaves three anchors out (`PolicySigning`). With handlers that sign while the
  registry changes, the signing owner is the one whose version was read (`SigningProtocol`).
* **Owner registry.** The store's invariant over every run, what each call does to both tables, and
  the effect of every step and the chain of custody over every interleaving of any number of handlers (`OwnerRegistry`,
  `RotationProtocol`).
* **Generated policy.** The five text passes are line rewrites; each is idempotent, fires
  independently of the earlier ones, and can be undone (`PolicyLines`, `PolicyPasses`,
  `PolicyConstants`, `PolicyFacts`); the chain of them is idempotent too (`PolicyChain`). The mount
  correction is one map over the tree as it was read; it can be undone and is always refused a
  second time (`MountCorrection`, `PolicyData`). The passes behind it leave the policy data alone
  (`GeneratedPolicy`), and the finished policy holds the helper of every pass that fired and no check
  line outside it (`GeneratedRules`).
* **Descriptor interpretation.** The config-key parser (`ConfigKeys`), and first match against the
  last-wins map (`ResourceNames`).

## How outside matters are modelled

* SHA-256 is any function `h` from byte strings to 32 bytes. No injectivity is assumed: a result
  says "equivalent, or `Collision(h, S)`", where `S` is the finite set of strings that were
  digested for the two values. (That some collision exists somewhere is true of every such `h` and
  would say nothing.)
* Signature verification is any predicate. Where origin matters, a log holds the (key, message)
  pairs signed by honest keys, and what verifies under an honest key is in the log.
* `Encode` is total; `AllFit` and the `...Fits` predicates say when the encoder does not panic, and
  the verification functions have the panic as an outcome of its own.
* Strings of the signing side are UTF-8 bytes; the passes over generated policy work on characters.
* Timestamps are texts. The store takes a format function and a parse function, and the invariant
  needs that parsing a formatted time succeeds.
* `sort_by` is an insertion sort that is proved to be the only stable sort of its input.
  `str::replace` is leftmost, non-overlapping replacement, and `find` is the first occurrence;
  both are shared by the policy passes and the template.
* Each SQLite transaction is one atomic step of the store, committed or without effect.

## Findings

* A rotation request that succeeded, sent again, passes all checks of the handler and is then refused
  by the store: the handler passes the owner it has just read as the expected owner, which by then is
  the replacement (`RotationProtocol.RetryAfterCommitFails`, `ReplayBranchNeverCommits`). The store's replay answer is reached only when another request
  commits between the handler's read and its swap (`RacingDirectives`). The replay rule of the
  authority check, and the test about it in `signing-service/src/main.rs:602`, suggest otherwise;
  the model follows the code. For the same reason the rule in
  `docs/owner-bootstrap-and-rotation.md`, that the current owner signs the directive, holds for
  every rotation that commits, although the handler's check alone is weaker.
* The storage-mounts pass looks at one marker but writes three calls. It can be undone exactly when
  the other two calls were absent before (`PolicyFacts.StorageMountsInvertibleExactly`; a text that
  is not given back: `StorageMountsNotInvertible`).
* A slot value that contains an opening brace pair is accepted. If it is the text of a later slot, it
  is rewritten by it: an image digest `{{namespace}}` renders as the namespace, so two different
  accepted descriptors have one policy text, and the policy text alone does not determine the
  descriptor values (`ServiceTemplate.NestedSlotIsRewritten`). Rendering is simultaneous exactly when
  no value contains a brace pair (`ServiceTemplate.ServiceIsSimultaneous`); in general it is
  simultaneous substitution of the resolved values (`Template.RenderExactly`), and the policy text
  determines exactly those (`ServiceTemplate.PolicyTextBindsDescriptor`). A policy text determines the
  eight values of its descriptor, among all descriptors, exactly when none of them contains a brace
  pair and none but the two digests contains the value of a later slot
  (`ServiceTemplate.TextDeterminesDescriptor`). The digests are always determined. Quotes and line ends are safe in every case
  (`Template.RenderedStructure`).
* Member order changes the bytes of a keyring exactly when two different members share a user id
  (`Keyring.MemberOrder`).
* Config keys in single quotes outside double quotes are not read, the other nesting is
  (`ConfigKeys.SingleOutsideDoubleRefused`, `FromArgExactly`).

## Model

| member | source | states |
|---|---|---|
| CanonicalEncoding.CeV1Bytes | signing-service/src/canonical.rs:3-18 | the loop yields the encoding exactly when every label fits 16 bits and every value 32 bits, and panics otherwise; the output has the length reserved in advance |
| CanonicalEncoding.EncodeLength | signing-service/src/canonical.rs:4-7 | the output length is the precomputed total |
| CanonicalEncoding.EncodeConcat | signing-service/src/canonical.rs:9-17 | encoding distributes over concatenation of record lists |
| CanonicalEncoding.DecodeEncode | signing-service/src/canonical.rs:3-18 | a decoder recovers exactly the encoded list |
| CanonicalEncoding.EncodeDecode | signing-service/src/canonical.rs:3-18 | every byte string that the decoder accepts is the encoding of what it returns |
| CanonicalEncoding.EncodeInjective | signing-service/src/canonical.rs:3-18 | equal bytes mean equal record lists |
| CanonicalLayout.RecordLayout | signing-service/src/canonical.rs:9-17 | byte for byte: two bytes of label length, the label, four bytes of value length, the value, the larger bytes first |
| StableSort.SortProperties | signing-service/src/descriptor.rs:265-277 | the sort orders by key, keeps the multiset of entries, and keeps the order within each key |
| StableSort.SortedUnique | signing-service/src/keyring.rs:117-129 | only one sorted list has given sub-sequences per key, so any stable sort agrees with the model's |
| StableSort.SortCharacterised | signing-service/src/descriptor.rs:265-277 | two lists sort alike if and only if every key has the same sub-sequence of entries in both |
| StableSort.SortOrderBlind | signing-service/src/keyring.rs:117-129 | sorting forgets the input order for all permutations if and only if entries that share a key are equal |
| StableSort.SwapChangesSort | signing-service/src/keyring.rs:117-129 | two different entries with one key: swapping them changes the sorted list |
| CanonicalLayout.LexMeans | signing-service/src/descriptor.rs:265-277 | the order of the sort: one text comes before another if and only if it is a prefix of it or has the smaller byte at the first difference |
| Descriptor.EnvRecordsCharacterised | signing-service/src/descriptor.rs:265-277 | name-value lists have equal records if and only if each name has the same sequence of values |
| Descriptor.MeasurementInjective | signing-service/src/descriptor.rs:87-99 | a 32-byte and a 48-byte measurement never have the same bytes |
| Descriptor.OciBinding | signing-service/src/descriptor.rs:342-363 | equal digests of two OCI specs mean equivalent specs, unless the strings digested collide |
| Descriptor.RecordListsSplit | signing-service/src/descriptor.rs:387-459 | equal descriptor records mean equal fields, flags and anchors, although the independent-verification record is optional |
| Descriptor.DescriptorBinding | signing-service/src/descriptor.rs:365-369 | the full canonical bytes agree if the descriptors are equivalent, and only if they are, or the strings digested collide |
| Descriptor.CoreBinding | signing-service/src/descriptor.rs:371-380 | the core bytes agree exactly for equivalence that ignores the three chain anchors, or a collision |
| CanonicalLayout.DescriptorReadBack | signing-service/src/descriptor.rs:365-459 | from the full and the core bytes alone, every literal label is read back with the value of its own field, digests as the digest of the part; the labels come in the source's order, with the purpose, the optional flag and the anchors where they belong |
| CanonicalLayout.SignerLayout | signing-service/src/descriptor.rs:238-243 | the bytes digested for the signer decode to its literal labels with the subject and the issuer |
| CanonicalLayout.SidecarLayout | signing-service/src/descriptor.rs:245-250 | the bytes digested for the sidecars decode to the literal labels with their two digests |
| CanonicalLayout.OciLayout | signing-service/src/descriptor.rs:342-363 | the bytes digested for the runtime spec decode to the literal labels, each with the digest of its own list or part |
| CanonicalLayout.SecurityLayout | signing-service/src/descriptor.rs:320-333 | the security context decodes to the literal labels with the user and group in four bytes each and one byte per flag |
| CanonicalLayout.ResourcesLayout | signing-service/src/descriptor.rs:335-340 | the resources decode to the digests of requests and limits, each under its label |
| CanonicalLayout.StringListLayout | signing-service/src/descriptor.rs:252-263 | a list of strings decodes to one record per string in order, labelled with its decimal index |
| CanonicalLayout.DecimalMeans | signing-service/src/descriptor.rs:252-263 | an index is written in decimal digits that denote it, without a leading zero |
| CanonicalLayout.PortsLayout | signing-service/src/descriptor.rs:279-295 | the port list decodes to one record per port in order, with its number and protocol |
| CanonicalLayout.MountsLayout | signing-service/src/descriptor.rs:297-318 | the mount list decodes to one digest per mount in order |
| CanonicalLayout.MountLayout | signing-service/src/descriptor.rs:297-318 | one mount decodes to its literal labels with source, destination, kind and the digest of its options |
| CanonicalLayout.EntriesLayout | signing-service/src/descriptor.rs:265-277 | a name-value list decodes to one record per entry, ascending by name, entries with one name in their original order |
| Keyring.KeyringBinding | signing-service/src/keyring.rs:93-129 | the canonical bytes agree if and only if the keyrings are equivalent, or a collision |
| Keyring.EquivalentMembers | signing-service/src/keyring.rs:117-129 | equivalent keyrings have the same members |
| Keyring.MemberOrder | signing-service/src/keyring.rs:117-129 | no reordering of members changes the bytes if members that share a user id are equal; otherwise one does, or a collision |
| CanonicalLayout.KeyringLayout | signing-service/src/keyring.rs:93-104 | the keyring bytes decode to the literal labels with organisation, version, the digest of the members and the time |
| CanonicalLayout.MembersLayout | signing-service/src/keyring.rs:117-129 | the member list decodes to one digest per member, in the order of user ids, members that share one in their original order |
| CanonicalLayout.MemberLayout | signing-service/src/keyring.rs:106-115 | a member decodes to the literal labels with user id, key, role name and time |
| LengthBounds.EntriesFit | signing-service/src/descriptor.rs:265-277 | an entry list is encoded without a panic if and only if its names fit the label width and its values the value width |
| LengthBounds.DescriptorFitsExactly | signing-service/src/descriptor.rs:365-459 | a descriptor meets the length bounds of the binding results if and only if its texts fit the value width, its entry names the label width, and the last index of each numbered list a label |
| LengthBounds.DecimalDigits | signing-service/src/descriptor.rs:252-263 | an index has at most k digits if and only if it is below 10 to the power k, so the bound on numbered lists is one on their length |
| LengthBounds.KeyringFitsExactly | signing-service/src/keyring.rs:93-129 | a keyring meets the length bounds if and only if its timestamps do |
| SigningMessages.KindsNeverShareBytes | signing-service/src/descriptor.rs:365-380 | descriptor, core, keyring, directive and artifact inputs are never the same bytes, whatever the digest |
| SigningMessages.DirectiveBinding | signing-service/src/main.rs:471-489 | directive bytes determine the whole directive |
| SigningMessages.MetadataBinding | signing-service/src/policy.rs:310-342 | the metadata bytes determine the decoded metadata |
| SigningMessages.ArtifactBinding | signing-service/src/policy.rs:344-354 | artifact inputs determine the policy digest, and the metadata or a collision |
| CanonicalLayout.DirectiveLayout | signing-service/src/main.rs:471-489 | the directive bytes decode to the literal labels, each with its own field: the revoked key is not the replacement |
| CanonicalLayout.MetadataLayout | signing-service/src/policy.rs:310-342 | the metadata bytes decode to the eleven literal labels with the decoded values |
| CanonicalLayout.ArtifactLayout | signing-service/src/policy.rs:344-354 | the artifact input decodes to its purpose, the digest of the metadata bytes and the policy digest |
| SigningInputs.AcceptedExactly | signing-service/src/policy.rs:134-157 | both envelopes are accepted if and only if the org ids agree, the trusted owner signed the keyring and is an owner in it, a member key signed the descriptor, and no resource name repeats |
| SigningInputs.AcceptedValues | signing-service/src/policy.rs:148-157 | what acceptance returns: the descriptor, its signer, and the digests of the core bytes and of the keyring bytes |
| SigningInputs.KeyMismatchUnreachable | signing-service/src/descriptor.rs:196-218 | the second comparison of the descriptor's key never fails here |
| SigningInputs.FindDeployerCharacterised | signing-service/src/keyring.rs:79-86 | a deployer is found if and only if some member has the key, and it is that key |
| SigningInputs.KeyringOrigin | signing-service/src/keyring.rs:60-77 | an accepted keyring is equivalent to one that the honest owner signed, or a collision |
| SigningInputs.DescriptorOrigin | signing-service/src/descriptor.rs:196-218 | an accepted descriptor is equivalent to one that the honest deployer key signed, or a collision |
| SigningInputs.Provenance | signing-service/src/policy.rs:134-157 | end to end: the owner signed an equivalent keyring for the same organisation that lists the owner and the deployer key, and that key signed an equivalent descriptor, or an explicit collision |
| ResourceNames.FirstDuplicate | signing-service/src/descriptor.rs:221-231 | the set-based scan finds nothing exactly for pairwise distinct names, and otherwise the first repeated name |
| ResourceNames.ValidateUniqueResourceNames | signing-service/src/descriptor.rs:220-236 | accepts exactly the descriptors without repeated names; otherwise reports the list, requests first, and the first repeated name in it |
| ResourceNames.FirstIsHead | signing-service/src/genpolicy.rs:1127-1135 | first match gives the first value of a name |
| ResourceNames.SmallShapeExactly | signing-service/src/genpolicy.rs:1137-1141 | the workload is small if and only if the first limit named memory parses to less than 512 MiB |
| ResourceNames.RenderedIsLast | signing-service/src/genpolicy.rs:1562-1575 | for every list the rendered map holds the last value of each name in the original order |
| ResourceNames.LookupsAgree | signing-service/src/genpolicy.rs:1562-1575 | first match and the rendered map agree on a name if and only if its first and last values are equal |
| ResourceNames.UniqueLookups | signing-service/src/descriptor.rs:220-236 | with distinct names, first match, last match and the map are one lookup |
| ResourceNames.ShapeMatchesManifest | signing-service/src/genpolicy.rs:1127-1141 | on accepted descriptors the small-shape decision is the one computed from the rendered limits |
| ResourceNames.DuplicatesDisagree | signing-service/src/policy.rs:144-147 | without the check the two decisions can differ |
| CapabilityProfiles.Pigeonhole | signing-service/src/policy.rs:416-424 | a list as long as a list of distinct names that contains them all is a permutation of it |
| CapabilityProfiles.MatchIsExact | signing-service/src/policy.rs:416-424 | the check accepts exactly the permutations of the required capabilities, ignoring ASCII case, with ALL dropped |
| CapabilityProfiles.RootfulSudoExactly | signing-service/src/genpolicy.rs:1000-1019 | the generator's check and the signer's check of the rootful-sudo profile agree on all specs, and accept exactly root with a writable root, escalation, ALL dropped and a permutation of the required set |
| CapabilityProfiles.FloorIsExact | signing-service/src/policy.rs:389-424 | an accepted descriptor that escalates adds exactly the rootful-sudo set; the two profiles exclude each other |
| CapabilityProfiles.FloorExactly | signing-service/src/policy.rs:389-424 | the floor holds if and only if the container is not privileged and, where it escalates, is root with a writable root, drops ALL and adds exactly the six literal capability names, in any order and case |
| CapabilityProfiles.IgnoresCaseOnly | signing-service/src/policy.rs:416-424 | two names count as one if and only if they have equal length and at each place equal bytes or the two cases of one ASCII letter |
| CapabilityProfiles.RelayNames | signing-service/src/genpolicy.rs:96-97 | the required names of the other profile, literally |
| TextCodecs.HexRoundTrip | signing-service/src/policy.rs:195-203 | hexadecimal text decodes to the bytes it was made from |
| TextCodecs.UuidRoundTrip | signing-service/src/policy.rs:196-197 | identifier text parses to the identifier |
| TextCodecs.Base64RoundTrip | signing-service/src/policy.rs:221 | base64 text decodes to the bytes it was made from |
| TextCodecs.Base64Canonical | signing-service/src/policy.rs:259-269 | only one base64 text decodes to given bytes |
| TextCodecs.Base64Padded | signing-service/src/policy.rs:259-269 | the text of bytes whose number is no multiple of three ends in padding |
| Artifact.TwoSpellings | signing-service/src/policy.rs:259-269 | both spellings of every 64-byte signature decode to it, because its base64 text is never hexadecimal |
| Artifact.OnlyTwoSpellings | signing-service/src/policy.rs:259-269 | no third spelling is accepted |
| Artifact.SignedExactly | signing-service/src/policy.rs:159-225 | an artifact is signed if and only if app, deployment, release, schema, template id and template digest agree, the floor holds, the policy renders, both text digests agree, and the metadata texts fit the encoder |
| Artifact.SignedCarries | signing-service/src/policy.rs:190-224 | a signed artifact carries the rendered policy, the agent policy, both digests, the signature of the signing input and the key, each in its text form |
| Artifact.VerifiedExactly | signing-service/src/policy.rs:227-257 | an artifact is accepted if and only if both digests decode to those of its texts, the metadata repeats the agent digest, and the signature is a spelling of 64 bytes that verify the signing input |
| Artifact.SignedArtifactVerifies | signing-service/src/policy.rs:159-257 | every artifact that is signed is accepted under the signing key, its metadata decodes to the verified values, and its texts have the digests in the descriptor |
| Artifact.SignedArtifactIsConfined | signing-service/src/policy.rs:188-189 | a signed artifact's container is not privileged, escalates only with the exact capability set, and its policy has the template's quote and line structure |
| Artifact.AcceptedArtifactBinding | signing-service/src/policy.rs:227-257 | two accepted artifacts with one signing input have equal policy text, agent policy text and decoded metadata, or a collision |
| Artifact.ArtifactOrigin | signing-service/src/policy.rs:227-257 | an artifact accepted under an honest key was signed as an artifact with this policy digest and, unless strings collide, this metadata |
| PolicySigning.SelfCheckNeverFails | signing-service/src/main.rs:256-264 | the handler's own check of the artifact never fails for a key that verifies what it signs |
| PolicySigning.SignsExactly | signing-service/src/main.rs:226-266 | over every run of the registry, a service with a correct key signs if and only if the organisation has a history, the envelopes are in order for the key of its last event, an agent policy is generated, and the request is in order; both conditions are spelled out on the inputs |
| PolicySigning.SignedAsRequested | signing-service/src/policy.rs:166-189 | whatever is signed was asked for: the request names the app, deployment and release of the signed descriptor, which names this service's schema and template and meets the floor |
| PolicySigning.ServiceSignsExactly | signing-service/src/policy.rs:159-225 | for the service's own template the condition is in full on the inputs: rendering by eight values fit for a slot whose resolved forms have no brace pair, and the digest of the simultaneous substitution |
| PolicySigning.SignedUnderLastOwner | signing-service/src/main.rs:235-249 | over every run of the registry, an artifact is signed only under the key of the organisation's last event; that owner, if honest, signed an equivalent keyring, and the deployer, if honest, an equivalent descriptor, or strings collide |
| PolicySigning.ArtifactBindsDescriptor | signing-service/src/policy.rs:178-224 | two signed artifacts with one signing input were signed for equivalent descriptors, the three anchors included, or strings collide |
| SigningProtocol.RegistryRunsAlone | signing-service/src/main.rs:226-266 | signing handlers never disturb the registry: it runs as if nobody signed |
| SigningProtocol.SigningRunKeeps | signing-service/src/main.rs:235-264 | over every interleaving, a handler between its read and its signature holds the owner of a prefix of the organisation's history |
| SigningProtocol.IssuedUnderReadOwner | signing-service/src/main.rs:235-264 | over every interleaving, an artifact is signed under the key of the event whose version was read; that is the last event at the signature if and only if nothing was committed for the organisation since; an honest owner signed an equivalent keyring and an honest deployer an equivalent descriptor, or strings collide |
| SigningProtocol.ReadStepExactly | signing-service/src/main.rs:235-249 | a read for signing adds a reading of the organisation's last event if and only if its id is free, signing is enabled and the organisations agree and have a history |
| SigningProtocol.SignStepExactly | signing-service/src/main.rs:249-264 | a signature ends its reading and issues one artifact, under the owner that was read, if and only if the request is in order for that owner |
| SigningProtocol.ReadThenSign | signing-service/src/main.rs:226-266 | read and signature without a step in between issue what the handler on its own answers |
| TextRewriting.FindIsFirst | signing-service/src/genpolicy.rs:716-722 | find gives the first occurrence, and nothing only when there is none |
| TextRewriting.ReplaceFirst | signing-service/src/policy.rs:298 | replacement leaves the text before the first occurrence and continues behind it |
| TextRewriting.ReplaceBack | signing-service/src/genpolicy.rs:515-572 | replacing back restores the text, for a border-free replacement that the text does not contain |
| TextRewriting.ReplaceJoin | signing-service/src/policy.rs:298 | replacement acts on each piece alone when the needle lacks the separator |
| Template.RenderLoop | signing-service/src/policy.rs:295-304 | the loop computes the checked sequential rendering |
| Template.SequentialIsSimultaneous | signing-service/src/policy.rs:271-304 | for stand-alone slots: the result is one simultaneous substitution if and only if all values are accepted and no value in use contains an opening brace pair |
| Template.RenderExactly | signing-service/src/policy.rs:295-299 | for stand-alone slots and all values: sequential rendering is simultaneous substitution of the resolved values, each value as rewritten by the later slots |
| Template.OrderIrrelevant | signing-service/src/policy.rs:271-299 | a rendering that succeeds is the same in every order of the slots if and only if no value in use contains an opening brace pair |
| Template.ValuesRecovered | signing-service/src/policy.rs:271-304 | the resolved value of a slot stands at the slot's place in the result; it is the value itself if and only if that contains no opening brace pair |
| Template.RenderInjective | signing-service/src/policy.rs:271-304 | two renderings that succeed are equal if and only if the resolved values agree in every slot in use; for values without a brace pair those are the values |
| RenderedValues.RenderedFromItself | signing-service/src/policy.rs:295-299 | a result that contains no slot's value was rendered from itself only |
| RenderedValues.SlotInText | signing-service/src/policy.rs:295-299 | a slot's text between plain texts is rendered to its value between them, and nothing else changes |
| RenderedValues.DeterminedExactly | signing-service/src/policy.rs:271-304 | with all slots in use, a rendered text determines the values of chosen slots, among all accepted values, if and only if no value contains an opening brace pair and no chosen value contains the value of a later slot |
| Template.RenderSucceeds | signing-service/src/policy.rs:295-304 | rendering succeeds if and only if all values are accepted and no resolved value in use contains an opening brace pair |
| Template.RenderedStructure | signing-service/src/policy.rs:376-387 | for every template and all accepted values the quotes, line ends and NULs are the template's, in order, and no brace pair is left |
| Template.RenderedMarks | signing-service/src/policy.rs:376-387 | on the bytes themselves: a value that is empty or holds one of the bytes 34, 10, 13 and 0 is an error, and in every rendered policy the sub-sequence of these bytes is the template's |
| Template.FirstErrorExactly | signing-service/src/policy.rs:376-387 | the value check passes if and only if every value is non-empty and holds none of the bytes 34, 10, 13 and 0, and otherwise the error names the first slot whose value does not |
| Template.SlotNames | signing-service/src/policy.rs:272-294 | the eight slot names are plain and distinct |
| ServiceTemplate.ServiceSlotsStandAlone | templates/trustee-resource-policy-v1.1.rego:9-16 | in the shipped text every slot stands alone and all eight occur |
| ServiceTemplate.ServiceIsSimultaneous | signing-service/src/policy.rs:271-304 | the service renders a descriptor simultaneously if and only if its eight values are accepted and contain no opening brace pair |
| ServiceTemplate.ServiceValues | templates/trustee-resource-policy-v1.1.rego:9-16 | in a rendered policy the resolved values stand at fixed places; each is the descriptor's value if and only if that contains no opening brace pair |
| ServiceTemplate.ServiceTextPieces | templates/trustee-resource-policy-v1.1.rego:9-16 | the eight lines of the shipped text, literally, with the slot between its quotes |
| ServiceTemplate.RenderedFields | signing-service/src/policy.rs:271-304 | in the rendered policy each of the eight literal lines holds the resolved value of the descriptor field that it names |
| ServiceTemplate.PolicyTextBindsDescriptor | signing-service/src/policy.rs:271-304 | two rendered policy texts are equal if and only if the resolved values agree; then the two digests agree, and the other values do when none contains an opening brace pair |
| ServiceTemplate.TextDeterminesDescriptor | signing-service/src/policy.rs:271-304 | the policy text of a descriptor determines its eight values, among all descriptors, if and only if none contains an opening brace pair and none but the two digests contains the value of a later slot |
| ServiceTemplate.NestedSlotIsRewritten | signing-service/src/policy.rs:295-299 | an image digest that is the text of the namespace slot: two accepted descriptors with one policy text, the second not rendered simultaneously |
| OwnerRegistry.OwnerStore.Bootstrap | signing-service/src/owner_store.rs:78-117 | the method equals the transition function, keeps the invariant, and changes nothing on error |
| OwnerRegistry.OwnerStore.Get | signing-service/src/owner_store.rs:119-147 | the method equals the read function |
| OwnerRegistry.OwnerStore.Rotate | signing-service/src/owner_store.rs:154-236 | the method equals the transition function, keeps the invariant, and under it changes nothing on error, conversions after the commit included |
| OwnerRegistry.BootstrapKeepsInvariant | signing-service/src/owner_store.rs:78-117 | versions stay 1 to n, the row equals the last event, and neighbouring events hold different keys |
| OwnerRegistry.RotateKeepsInvariant | signing-service/src/owner_store.rs:154-236 | the same for rotation |
| OwnerRegistry.BootstrapEffect | signing-service/src/owner_store.rs:78-117 | creates version 1 if and only if there is no history; the same key again succeeds and changes nothing |
| OwnerRegistry.GetOwnerEffect | signing-service/src/owner_store.rs:119-147 | under the invariant a read never fails and gives the last event's key and version |
| OwnerRegistry.RotateEffect | signing-service/src/owner_store.rs:154-236 | adds one event exactly when expected is current and not the replacement; answers without a change exactly when the last two events are that rotation; otherwise fails without a change |
| OwnerRegistry.RotateReplay | signing-service/src/owner_store.rs:171-196 | repeating the last rotation adds nothing and returns the same version |
| OwnerRegistry.GetOwnerTimes | signing-service/src/owner_store.rs:119-147 | the record that is read has the time of the first event and of the last one, parsed |
| OwnerRegistry.RotateTimes | signing-service/src/owner_store.rs:154-236 | a rotation's record has the time of the first event, and its own time if it was committed, otherwise that of the last event |
| OwnerRegistry.RotateRefusals | signing-service/src/owner_store.rs:154-236 | each refusal of a rotation, if and only if, in terms of the last two events |
| RotationProtocol.HandleRotateOwner | signing-service/src/main.rs:415-461 | one handler without interleaving: its effect on the store and its answer |
| RotationProtocol.PreparedExactly | signing-service/src/main.rs:419-451 | the handler reaches the swap if and only if the reason is not blank, an owner exists, keys and signature decode, and authority and signature hold for the directive made from the request |
| RotationProtocol.UninterruptedRotation | signing-service/src/main.rs:426-461 | without interleaving, a prepared rotation succeeds if and only if the replacement is not current; then the current owner signed it and the replacement is the owner that is read next |
| RotationProtocol.ReplayBranchNeverCommits | signing-service/src/main.rs:463-469 | a request let through because the replacement is already current never changes the store |
| RotationProtocol.ChainOfCustody | signing-service/src/main.rs:415-461 | over every interleaving, each rotation event was caused by a request whose verified signer is the key of the event before, for that organisation and replacement |
| RotationProtocol.ReadStepExactly | signing-service/src/main.rs:415-451 | on every reachable state a read adds a pending rotation if and only if its id is free, the organisation has a history, and the request passes the checks against the key of the last event; it changes nothing else |
| RotationProtocol.SwapStepExactly | signing-service/src/main.rs:453-454 | on every reachable state a swap whose expected key is the last event's and not the replacement adds exactly the next version with the replacement and the time, caused by that rotation, and takes exactly that id out of flight; otherwise it adds nothing; other organisations keep their histories |
| RotationProtocol.BootstrapStepExactly | signing-service/src/main.rs:346-378 | a bootstrap adds the first event of an organisation without a history, and nothing otherwise |
| RotationProtocol.ReadThenSwap | signing-service/src/main.rs:415-461 | read and swap without a step in between leave the registry as the handler on its own does |
| RotationProtocol.ShortestRotation | signing-service/src/main.rs:346-461 | bootstrap, read, swap: for every request that passes the checks the history is the two keys, versions 1 and 2 |
| RotationProtocol.RotationsAreSigned | signing-service/src/main.rs:439-451 | an honest key that was replaced had signed a directive naming that organisation, itself and the replacement |
| RotationProtocol.RacingDirectives | signing-service/src/owner_store.rs:171-196 | two identical directives that race add one event and report one version |
| RotationProtocol.RetryAfterCommitFails | signing-service/src/main.rs:453-454 | a request that succeeded is prepared again on the state it produced, with the replacement as expected owner, and is refused without a change there and in every later state |
| PolicyLines.InsertPolicyHelper | signing-service/src/genpolicy.rs:716-728 | the helper stands behind the first occurrence of the anchor, with nothing else changed; without an anchor it stands in front with a line break |
| PolicyLines.ReplaceIsPerLine | signing-service/src/genpolicy.rs:515-714 | byte-level replacement with a line-shaped needle is a suffix rewrite of each line |
| PolicyLines.RemoveInserted | signing-service/src/genpolicy.rs:716-728 | an inserted helper can be found and removed, with or without the anchor |
| PolicyLines.RuleRemovesCheck | signing-service/src/genpolicy.rs:574-645 | after a rule no line ends with its check |
| PolicyLines.RuleKeepsLine | signing-service/src/genpolicy.rs:574-645 | a rule neither adds nor removes a line ending that it does not clash with |
| PolicyPasses.Idempotent | signing-service/src/genpolicy.rs:515-535 | a pass of the right shape applied twice is the pass applied once |
| PolicyPasses.NoCheckOutsideHelper | signing-service/src/genpolicy.rs:574-645 | a fired pass leaves no check line outside its helper |
| PolicyPasses.Invertible | signing-service/src/genpolicy.rs:515-572 | a fired one-rule pass can be undone |
| PolicyPasses.InvertibleExactly | signing-service/src/genpolicy.rs:574-645 | a fired pass with one-line rules can be undone exactly when none of its calls was there before |
| PolicyPasses.LeavesFiring | signing-service/src/genpolicy.rs:499-504 | a pass that leaves another's marker and checks alone does not change whether it fires |
| PolicyFacts.AllShapes | signing-service/src/genpolicy.rs:515-714 | the five passes, with their literal texts, have the shape that the laws need |
| PolicyFacts.PassesFireIndependently | signing-service/src/genpolicy.rs:499-504 | each pass fires on the output of the earlier ones exactly when it would on the original text |
| GeneratedRules.FiringMeans | signing-service/src/genpolicy.rs:515-572 | when the PID-namespace, root-filesystem, sandbox-storage and extra-storage passes fire, on the literal words and lines |
| GeneratedRules.StorageFiringMeans | signing-service/src/genpolicy.rs:574-645 | the storage-mounts pass fires if and only if its one literal word is absent and one of its three literal lines is present |
| PolicyFacts.PassesAreIdempotentAndComplete | signing-service/src/genpolicy.rs:515-714 | each of the five passes is idempotent and, where it fires, leaves no check line outside its helper |
| PolicyFacts.SingleRulePassesInvertible | signing-service/src/genpolicy.rs:515-572 | the PID-namespace, root-filesystem, sandbox-storage and extra-storage passes can be undone on every text they fire on |
| PolicyFacts.StorageMountsInvertibleExactly | signing-service/src/genpolicy.rs:574-645 | the storage-mounts pass can be undone if and only if its other two calls were absent |
| PolicyFacts.StorageMountsNotInvertible | signing-service/src/genpolicy.rs:574-645 | a text on which it fires and that undoing does not give back |
| PolicyChain.NoneFiresAfterChain | signing-service/src/genpolicy.rs:499-504 | whatever the input, none of the five passes fires on the output of the chain |
| PolicyChain.ChainIdempotent | signing-service/src/genpolicy.rs:499-504 | the chain of five passes applied twice is the chain applied once |
| GeneratedPolicy.PassesKeepData | signing-service/src/genpolicy.rs:499-504 | after any number of passes the text splits at the last separator into rules and the same policy data, if no line of the data is a check or anchor line and the data holds no separator |
| GeneratedPolicy.FinishedKeepsData | signing-service/src/genpolicy.rs:499-513 | with the placeholder replaced and the layout line in front, the finished policy holds the data with the placeholder replaced, and no other change to it |
| GeneratedRules.FinishedStartsWithLayout | signing-service/src/genpolicy.rs:508-512 | the finished policy starts with the literal layout line |
| GeneratedRules.FinishedHolds | signing-service/src/genpolicy.rs:499-513 | for every pass that fires on the text, the finished policy holds its marker and its helper whole, and no check line of that pass in front of the helper or behind it |
| GeneratedRules.NoneFiresOnFinished | signing-service/src/genpolicy.rs:499-513 | whatever the text, no pass fires on the finished policy |
| GeneratedRules.PassOnRulesExactly | signing-service/src/genpolicy.rs:515-535 | in front of data that no pass touches, a pass works on the rules as if there were no data, if and only if it would not fire on them or its marker is not in the data |
| GeneratedRules.FinishedRules | signing-service/src/genpolicy.rs:499-513 | with data behind the separator, the finished policy is the layout line, what the chain makes of the rules with the placeholder replaced, the separator, and the data with the placeholder replaced |
| GeneratedPolicy.CorrectedDataSurvives | signing-service/src/genpolicy.rs:311-318 | what the mount correction wrote is the data of the text behind the passes |
| MountCorrection.CorrectMounts | signing-service/src/genpolicy.rs:338-396 | the loop, judging each target on the tree as updated so far, gives the first error or the tree of the one-shot map, both computed on the original tree |
| MountCorrection.SameGuard | signing-service/src/genpolicy.rs:359-394 | earlier targets never change the verdict on a later one |
| PolicyData.Normalize | signing-service/src/genpolicy.rs:323-401 | the whole correction, with its error cases, equals its one-shot form |
| PolicyData.SplitIsLast | signing-service/src/genpolicy.rs:330-332 | the text is split at the last separator, and fails to split only without one |
| PolicyData.AcceptedExactly | signing-service/src/genpolicy.rs:323-396 | it succeeds if and only if on the tree as read every target has a unique container with mounts, and a unique mount of the exact shape or, if optional, none |
| PolicyData.RefusedExactly | signing-service/src/genpolicy.rs:323-338 | each of the first three errors, if and only if: no separator, data that does not parse, no container list |
| PolicyData.OnlyNamedOptionsChange | signing-service/src/genpolicy.rs:395-401 | only the options of targeted mounts change; containers, order, other mounts and other fields are kept |
| PolicyData.MountsAfterwards | signing-service/src/genpolicy.rs:340-396 | which mounts are corrected, by container and destination literally, and the options that they hold afterwards; every other field and mount is as it was |
| PolicyData.OtherContainersKept | signing-service/src/genpolicy.rs:359-372 | a container without a mount list, or that no target names, is left as it was |
| PolicyData.TreeRestored | signing-service/src/genpolicy.rs:389-395 | writing the generator's options back gives the original tree |
| PolicyData.OutputRestored | signing-service/src/genpolicy.rs:397-400 | the rules text is kept, and the original data can be computed from the output |
| PolicyData.CorrectionInjective | signing-service/src/genpolicy.rs:323-401 | two texts with one corrected text have the same rules and data |
| PolicyData.NeverTwice | signing-service/src/genpolicy.rs:389-394 | correcting a corrected text always fails, with the unexpected-shape error |
| ConfigKeys.TrimPadded | signing-service/src/genpolicy.rs:1059 | trimming removes exactly the padding on both sides |
| ConfigKeys.NormalizeExactly | signing-service/src/genpolicy.rs:1056-1066 | the result is the join of given valid keys if and only if the comma-separated pieces spell those keys in order, in white space and between blank pieces |
| ConfigKeys.ResultIsKeys | signing-service/src/genpolicy.rs:1056-1066 | every result is the join of valid keys, which splitting it gives back |
| ConfigKeys.CharactersMean | signing-service/src/genpolicy.rs:1044-1075 | white space, terminators, quotes and the characters of a valid key, by their codes |
| ConfigKeys.NormalizeIdempotent | signing-service/src/genpolicy.rs:1056-1066 | a result is its own normal form |
| ConfigKeys.AssignedTextIs | signing-service/src/genpolicy.rs:1044-1051 | the assigned text is what stands between the prefix and the terminator, when the text before lacks the prefix |
| ConfigKeys.FromArgExactly | signing-service/src/genpolicy.rs:1044-1054 | an argument gives a result if and only if the assigned text is, inside quotes, a body with that normal form |
| ConfigKeys.WrittenKeysReadBack | signing-service/src/genpolicy.rs:1044-1054 | keys written with optional quotes and any terminator are read back |
| ConfigKeys.SingleOutsideDoubleRefused | signing-service/src/genpolicy.rs:1052-1053 | single quotes outside double quotes: nothing is read |
| ConfigKeys.FirstFromArgsExactly | signing-service/src/genpolicy.rs:1036-1041 | the result is that of the first argument that gives one, and there is none exactly when no argument gives one |
| ConfigKeys.DescriptorKeysNormal | signing-service/src/genpolicy.rs:1026-1042 | results are in normal form from either source, and a valid environment value is never overridden |
| ConfigKeys.FromDescriptorExactly | signing-service/src/genpolicy.rs:1026-1042 | the result is that of the first environment entry with the literal name if it gives one, otherwise that of the first of command and arguments, in this order, that gives one, and none if there is no such |

## Left out

* The inside of SHA-256 and Ed25519: any digest function, any verification predicate, an ideal log.
* Routing, bearer tokens, health and status endpoints, environment variables, command lines.
* Running the generator, temporary directories, settings files, registry retry, token-mount removal.
* Parsing and printing of JSON and YAML: trees and decoded request blobs are given. Where a corrected text is read again, the
  printed tree is assumed to read back and to have no separator in its text.
* In-place update of the JSON tree through references: the model's loop updates one entry of a
  sequence value, so aliasing is not captured. The source's borrow rules exclude it.
* The pod manifest builders; they depend on the descriptor through a few booleans only.
* Memory text to MiB: an uninterpreted function of the text; floating point is not modelled.
* What the Rego template and the inserted helpers mean: they are texts.
* The text of the template before its first slot and after its last one: any text without a slot.
* RFC 3339 formatting and parsing: texts, with the format and parse functions given.
* Overflow of the 64-bit version column.
* Whether 32 stored bytes are a valid curve point: rows hold keys; requests decode keys with a given
  validity predicate.
* The org keyring value copied into an artifact: it is neither signed nor checked there.
* At-most-once use of a rotation directive: the code has no nonce for it, and keys may return.
* `constant_time_eq`, `log_spool_path`: easy members.
