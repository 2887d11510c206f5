# A verified model of the configuration server

The server stores typed configuration values: editors define structures and enums, fill in values, take snapshots and
publish one of them per configuration; runtime clients read the published value through a cache. This project models
the parts of it where correctness is not visible from one function, and proves what they promise.

| files | models |
|---|---|
| `Foundation`, `Messages`, `Violations` | protobuf messages with nil pointers and typed-nil oneofs; errors as trees |
| `TreeValidation`, `UniqueIds`, `Requests`, `Utf8` | generated validators, each run in fail-fast and in collect-all mode |
| `Tokens`, `Rendering`, `FaultTexts` | the text of nested errors, and what can be read back from it |
| `Graphs`, `Schema`, `SchemaTree`, `Choices`, `SchemaValues`, `ValueRules` | the schema: cycles, expansion, choices, values and defaults |
| `Publication`, `PublicationEffects` | snapshots, publication, restore and the runtime cache, as a state machine |
| `Permissions`, `PermissionEffects`, `KeyLists` | the permission resolver racing against changes of grants |

Main results:

- **Two modes, one meaning.** Every modelled validator is an imperative method whose result, in either mode, is fixed
  by one list of violations: collect-all returns the list, fail-fast its recursive first projection. For the recursive
  tree message, the leaves of that list are exactly the typed nils of the tree, once each and in pre-order, and a tree
  is accepted exactly when no getter can dereference a nil wrapper anywhere in it.
- **What error texts keep.** No nested error is lost from the text, but the collected text does lose the nesting: two
  different trees with different faults can read the same. The text of a tree identifies all its faults exactly when
  each fault lies below the previous one and the first step below it goes to an index no larger than any index on the
  way to it. The fail-fast text always names the first fault.
- **The schema layer.** Definitions are accepted exactly when they are well formed, resolved and acyclic, and a
  reported cycle is a real one. On an accepted schema, expansion always succeeds, has one possible result and passes
  the message validator; a structure is offered as a field type exactly when choosing it keeps the schema acyclic;
  value validation decides conformance; and a generated default is valid exactly when no single date, time or range is
  reachable from it outside an array. The code's own default is therefore not always accepted by its own validation:
  a date, and a structure with a date field, are two that are not.
- **Publication.** In every run, a reader gets what the database says is published, whatever the cache still holds;
  versions never go back, and the same version always means the same value. A valid draft that is taken and published is
  what readers get, and every operation's success and whole effect are stated. Restoring a deleted configuration resets
  its version to zero, which would be a hazard if it could have been published: it is shown that it cannot.
- **Credentials.** Setup bounds a password in bytes and user creation in runes. Neither accepts all that the other
  does; both differences have an input and an exact condition, and whatever either accepts can log in.
- **Permissions.** However resolvers, grant changes and cache losses interleave, the keys a call answers were those in
  force when its second read of the environment's version agreed with the first, and a call gives up only if the
  version grew during each of three successive attempts.

Conventions: an `Option` is a pointer that may be nil; the `Kind` of a field type distinguishes an unset oneof, a set
one, and a wrapper pointer that is nil; strings that the source measures are byte sequences. `Outcome(all, name,
errors)` in `Violations` is the meaning of a validator: nil for no violations, the multi-error for `ValidateAll`, and
the first projection for `Validate`.

## Model

| member | source | states |
|---|---|---|
| `TreeValidation.ValidateNode` | server/api/common/entity.pb.validate.go:1412-1487 | both modes of the recursive tree validator: collect-all returns all violations in order, fail-fast the recursive first projection of that result; nil input is accepted |
| `TreeValidation.ValidateField` | server/api/common/entity.pb.validate.go:1276-1325 | the same for a field and its embedded type |
| `TreeValidation.ValidateType` | server/api/common/entity.pb.validate.go:2049-2102 | the same for the oneof: one violation for a typed nil of any of the three kinds, none for an unset oneof |
| `Violations.FirstOfEmbedded` | server/api/common/entity.pb.validate.go:1419-1446 | projecting a wrapped collect-all failure gives the wrapped fail-fast failure of the same embedded message |
| `Violations.FirstProjectionIsChain` | server/api/common/entity.pb.validate.go:1400-1410 | a fail-fast error is a single chain of causes with no multi-error anywhere in it |
| `Violations.EmbedEachConcat` | server/api/common/entity.pb.validate.go:1448-1480 | violations of a concatenated repeated field are those of the parts, the second with shifted indices |
| `TreeValidation.ReportsExactlyTheTypedNils` | server/api/common/entity.pb.validate.go:1412-1487 | the leaves of the collected errors are in one-to-one correspondence with the paths to typed nils: none missed, none repeated, pre-order, with distinct label paths |
| `TreeValidation.LeavesAreTypedNils` | server/api/common/entity.pb.validate.go:1412-1487 | the sequence of leaf label paths equals the labels of an independent traversal that only looks for typed nils |
| `TreeValidation.TypedNilsComplete` | server/api/common/entity.pb.validate.go:2056-2095 | that traversal finds a path exactly when following it leads to a typed nil |
| `TreeValidation.TypedNilsOrdered` | server/api/common/entity.pb.validate.go:1419-1480 | its result is strictly increasing in pre-order: a node before its children, children by ascending index |
| `TreeValidation.LabelsInjective` | server/api/common/entity.pb.validate.go:1448-1480 | different nodes have different label paths |
| `TreeValidation.FailFastReportsTheFirstTypedNil` | server/api/common/entity.pb.validate.go:1400-1487 | `Validate` returns nil only if there is no typed nil at any depth, else one chain whose leaf is the pre-order minimum of the typed nils |
| `TreeValidation.GettersFailOnlyOnTypedNil` | server/api/common/entity.pb.go:1783-1808 | at any path, the three getters all return without a nil dereference exactly when there is no typed nil there |
| `TreeValidation.AcceptedIffGettersReturn` | server/api/common/entity.pb.validate.go:1400-1487 | a tree is accepted, in either mode, exactly when the getters return at every path; then at most one of them is not the default at each node |
| `Rendering.ErrorText` | server/api/common/entity.pb.validate.go:1494-1500 | the recursive rendering loop computes the rendering function that the laws below are about |
| `Rendering.JoinKeepsParts` | server/api/common/entity.pb.validate.go:1494-1500 | the texts of siblings appear whole, in list order and without overlap |
| `Rendering.RenderKeepsEveryError` | server/api/common/entity.pb.validate.go:1530-1547 | the text of an error contains the text of every error wrapped in it at any depth |
| `Rendering.TextIsTokens` | server/api/common/entity.pb.validate.go:1494-1547 | the text of a tree's collected errors is determined by its flat sequence of "enter child i" and "fault" tokens |
| `Tokens.TextInjective` | server/api/common/entity.pb.validate.go:1530-1547 | a text can be read back into its tokens, for any readable choice of fixed words |
| `Rendering.SameTextIffSameTokens` | server/api/common/entity.pb.validate.go:1494-1547 | two rejected trees have the same collected text exactly when they have the same token sequence |
| `Rendering.SameTextDifferentFaults` | server/api/common/entity.pb.validate.go:1494-1547 | two concrete trees with faults at different nodes have the same collected text, so nesting is lost |
| `FaultTexts.TokensAreSpelling` | server/api/common/entity.pb.validate.go:1412-1487 | the tokens of a tree depend only on its list of faults: from each fault to the next, the steps down are named and the steps up are not |
| `FaultTexts.Realized` | server/api/common/entity.pb.validate.go:1412-1487 | every list of paths in pre-order is the list of faults of some tree |
| `FaultTexts.TextIdentifiesFaultsIff` | server/api/common/entity.pb.validate.go:1494-1547 | every tree with the same collected text has the same faults exactly when each fault of the tree lies below the previous one and its first step from there is to an index no larger than any index before it |
| `Rendering.FailFastTextIdentifiesFault` | server/api/common/entity.pb.validate.go:1530-1547 | the fail-fast text determines the path of the first fault |
| `Rendering.LineLayout` | server/api/common/entity.pb.validate.go:1530-1547 | the literal layout of a line, with and without a cause |
| `Rendering.ListLayout` | server/api/common/entity.pb.validate.go:1494-1500 | a list is its lines in order, separated by semicolons |
| `TreeValidation.GettersReadTheirCase` | server/api/common/entity.pb.go:1783-1808 | each getter reads the payload of its own case and finds the default in the other two |
| `Decimal.LabelInjective` | server/api/common/entity.pb.validate.go:1448-1480 | two positions of one list never share a label |
| `Decimal.FormatPrefixUnique` | server/internal/logic/runtime.go:193-195 | a decimal followed by a non-digit is read back uniquely off the front of any text |
| `Decimal.FormatActorDecodes` | server/internal/converter/common.go:21-26 | empty exactly for non-positive ids; otherwise parsing the text gives the id back, and there is no leading zero |
| `UniqueIds.CheckIds` | server/api/admin/environment.pb.validate.go:1123-1154 | the loop with its seen set, in both modes, yields the violations of the list; the seen set is the set of the processed prefix |
| `UniqueIds.ValidateUserRoles` | server/api/admin/environment.pb.validate.go:1096-1161 | both modes of the request: scalar violations first, then the list's; fail-fast is the head of the whole list |
| `UniqueIds.ValidateRolePermissions` | server/api/admin/role.pb.validate.go:449-503 | the same for role permissions |
| `UniqueIds.ExactCounts` | server/api/admin/environment.pb.validate.go:1125-1154 | exactly length minus distinct repeats, exactly one range violation per non-positive id, and nothing else |
| `UniqueIds.PermutationInvariant` | server/api/admin/environment.pb.validate.go:1125-1154 | reordering the ids changes neither count |
| `UniqueIds.ReportedInOrder` | server/api/admin/role.pb.validate.go:456-500 | an index reports a repeat exactly if an earlier id equals it and a range violation exactly if it is not positive; ordered by index, the repeat first |
| `UniqueIds.UserRolesReported` | server/api/admin/environment.pb.validate.go:1096-1161 | in fail-fast mode environment and user are reported, in this order, before anything about the ids |
| `UniqueIds.RolePermissionsReported` | server/api/admin/role.pb.validate.go:449-503 | the same for the role id and the permission ids |
| `UniqueIds.UserRolesAccepted` | server/api/admin/environment.pb.validate.go:1096-1161 | accepted, in either mode, exactly when the scalars are positive and the ids are positive and pairwise distinct |
| `UniqueIds.RolePermissionsAccepted` | server/api/admin/role.pb.validate.go:449-503 | the same for role permissions |
| `Utf8.RuneByteBounds` | server/api/admin/user.pb.validate.go:82-91 | runes <= bytes <= 4 * runes for every byte string, malformed ones included |
| `Utf8.RuneCountEncoded` | server/api/admin/user.pb.validate.go:82-91 | on the encoding of n Unicode scalars (section 3 of RFC 3629) followed by any bytes, the count is n plus that of the rest |
| `Utf8.WideRuneIsEncoding` | server/api/admin/user.pb.validate.go:82-91 | conversely, whatever is counted as one rune of several bytes is the encoding of a scalar, so nothing malformed is merged |
| `Utf8.EncodedBits` | server/api/admin/user.pb.validate.go:82-91 | the encoder has the bit layout of section 3 of RFC 3629, read back arithmetically |
| `Utf8.BlankIsSpaces` | server/internal/entity/schema.go:123-126 | a trimmed text is empty exactly when the text encodes white-space code points only |
| `Requests.KeyLanguage` | server/api/admin/structure.pb.validate.go:206-226 | the language of config, structure and enum keys byte by byte: a letter alone, and any key shorter than 64 bytes followed by a letter or digit, and nothing else, in the key rule and in the schema layer |
| `Requests.EnvironmentKeyLanguage` | server/api/admin/environment.pb.validate.go:301-321 | the same for environment keys: a small letter, then small letters, digits and hyphens |
| `Requests.RoleKeyLanguage` | server/api/admin/role.pb.validate.go:171-191 | the same for role keys, with underscores, colons and dots |
| `Requests.OptionLanguage` | server/api/common/types.pb.validate.go:290-346 | the same for enum values: a capital, then capitals, digits and underscores |
| `Requests.KeyRuleIsByteRule` | server/api/admin/config.pb.validate.go:193-213 | the two key rules together accept exactly the 1 to 64 byte ASCII keys, a letter and then alphanumerics, which is also what the schema layer demands |
| `Requests.EnvironmentKeyIsRoleKey` | server/api/admin/environment.pb.validate.go:301-321 | every accepted environment key is an accepted role key, and has 1 to 64 bytes |
| `Requests.ValidateLogin` | server/api/admin/auth.pb.validate.go:53-90 | both modes of the login rules |
| `Requests.ValidateCreateUser` | server/api/admin/user.pb.validate.go:53-100 | both modes of the user-creation rules |
| `Requests.ValidateInitialAdmin` | server/api/admin/setup.pb.validate.go:155-200 | both modes of the setup rules, where the password is bounded in bytes |
| `Requests.ValidatePasswordChange` | server/api/admin/user.pb.validate.go:318-352 | both modes of the password-change rules |
| `Requests.CredentialsAccepted` | server/api/admin/user.pb.validate.go:53-100 | each of the four credential requests is accepted, in either mode, exactly within its rune or byte bounds |
| `Requests.CredentialsReported` | server/api/admin/setup.pb.validate.go:155-200 | in fail-fast mode name, display name and password are reported in this order, with these fields and reasons |
| `Requests.PasswordChangeReported` | server/api/admin/user.pb.validate.go:318-352 | in fail-fast mode the id is reported before the password |
| `Requests.CreatedAccountsCanLogIn` | server/api/admin/auth.pb.validate.go:60-80 | credentials accepted by setup or by user creation are accepted by login |
| `Requests.AcceptedPasswordBytes` | server/api/admin/user.pb.validate.go:82-91 | a password accepted by creation or by a change has 12 to 4096 bytes; one accepted by creation is accepted by setup exactly up to 1024 bytes |
| `Requests.SetupAcceptedByCreationIff` | server/api/admin/setup.pb.validate.go:184-193 | what setup accepts is accepted by creation exactly when the password has at least 12 runes |
| `Requests.SetupIsLooserOnShortRunes` | server/api/admin/setup.pb.validate.go:184-193 | four three-byte runes pass setup and not creation |
| `Requests.CreationIsLooserOnLongRunes` | server/api/admin/user.pb.validate.go:82-91 | three hundred four-byte runes pass creation and not setup |
| `Requests.ValidateOption` | server/api/common/types.pb.validate.go:290-346 | both modes of the option rules |
| `Requests.OptionReported` | server/api/common/types.pb.validate.go:290-346 | in fail-fast mode label, value length, value pattern and description are reported in this order |
| `Requests.CheckValues` | server/api/admin/enum.pb.validate.go:248-291 | the option loop in both modes, including the empty list and nil options |
| `Requests.OptionsCompose` | server/api/admin/enum.pb.validate.go:257-291 | the violations of xs followed by ys are those of xs, then those of ys with indices shifted by the length of xs |
| `Requests.OptionsAccepted` | server/api/admin/enum.pb.validate.go:248-291 | a list passes exactly when it is not empty and every option that is present satisfies the option rules |
| `Requests.ValidateImport` | server/api/admin/snapshot_transfer.pb.validate.go:314-429 | both modes of the import rules |
| `Requests.ImportReported` | server/api/admin/snapshot_transfer.pb.validate.go:314-429 | in fail-fast mode the failure names the first bad field in this order: four ids, description, idempotency key, strategy, target configuration |
| `Requests.ImportAccepted` | server/api/admin/snapshot_transfer.pb.validate.go:314-429 | accepted exactly for positive ids, texts within their rune bounds and strategy FAIL or REPLACE; any other strategy gives exactly one violation |
| `Graphs.LayeredIsAcyclic` | server/internal/entity/schema.go:259-289 | nodes that can be listed with every edge pointing backwards form no cycle: the certificate the search builds |
| `Graphs.AddEdgeAcyclic` | server/internal/entity/schema.go:188-213 | adding an edge keeps an acyclic graph acyclic exactly when its end did not reach its start |
| `Schemas.ReferencesAreFields` | server/internal/entity/schema.go:270-289 | a structure refers to another exactly if a field of it has the other's key as its type |
| `Schemas.TextsAccepted` | server/internal/entity/schema.go:119-126 | header texts are accepted exactly with a valid key, a name of at most 64 runes that is not just white space, and a description of at most 255 |
| `Schemas.OptionDefinitionAccepted` | server/internal/entity/schema.go:69-78 | the same for one enum option |
| `Schemas.TypesResolved` | server/internal/entity/schema.go:236-257 | exactly base types 1 to 13 and defined keys of the right kind are resolved |
| `Schemas.CycleSearch.Walk` | server/internal/entity/schema.go:259-289 | the depth-first step: no result means the key is finished and the visiting set is restored; a result is a walk that returns to itself |
| `Schemas.ValidateCycles` | server/internal/entity/schema.go:259-289 | reports nothing exactly when the references are acyclic, and otherwise a path that shows a cycle |
| `Schemas.CheckEnumValues` | server/internal/entity/schema.go:69-78 | accepted exactly for non-empty lists of well-formed options with distinct values |
| `Schemas.CheckType` | server/internal/entity/schema.go:236-257 | accepted exactly for a known base type or a key of a known structure or enum; nil-wrapper failure exactly on a typed nil |
| `Schemas.CheckFields` | server/internal/entity/schema.go:80-92 | accepted exactly for well-formed, resolved fields with distinct keys; a typed nil is read exactly when it is the first thing wrong |
| `Schemas.CollectStructures` | server/internal/entity/schema.go:37-45 | accepted exactly for well-formed headers with distinct keys; the map is then exactly the index of the list; a conflict names key k exactly when the first thing wrong is a repetition of k |
| `Schemas.CollectEnums` | server/internal/entity/schema.go:46-57 | the same for enums |
| `Schemas.CheckStructures` | server/internal/entity/schema.go:58-62 | accepted exactly when the fields of every structure are; a typed nil is read exactly when the first structure to fail meets one |
| `Schemas.NewSchema` | server/internal/entity/schema.go:32-67 | succeeds exactly when some schema is defined by the inputs (well formed, distinct, resolved, acyclic); a cycle error carries a real cycle; a typed nil is read exactly when headers and enums are accepted and the first field to fail holds one; a conflict names a key exactly when its repetition is the first thing wrong |
| `Schemas.IndexUnique` | server/internal/entity/schema.go:32-67 | the inputs define at most one schema |
| `SchemaTree.Children` | server/internal/entity/schema.go:291-314 | returns the expansion of a type and restores the shared set; fails only on a cycle |
| `SchemaTree.BuildTree` | server/internal/entity/schema.go:159-181 | on an acyclic schema succeeds exactly for a config with a resolved type, and the tree is the full expansion |
| `SchemaTree.ExpansionUnique` | server/internal/entity/schema.go:291-314 | there is only one expansion of a type |
| `SchemaTree.ExpansionShowsFields` | server/internal/entity/schema.go:291-314 | at every position, to any depth, the tree shows the field that following the structures of the schema finds there, and nothing anywhere else |
| `SchemaTree.ExpansionAccepted` | server/internal/entity/schema.go:159-181 | every tree built from a resolved schema passes the message validator |
| `Choices.ReferencesRejected` | server/internal/entity/schema.go:227-234 | true exactly when some field refers to a rejected key; reading fails exactly when a typed nil comes before any such field |
| `Choices.RejectDependents` | server/internal/entity/schema.go:215-225 | one pass over the items in order; it reports a change exactly when it added a key, and fails exactly when it meets a typed nil |
| `Choices.PassJustified` | server/internal/entity/schema.go:215-225 | a pass adds only keys of structures that reach the target |
| `Choices.IdlePassIsClosed` | server/internal/entity/schema.go:215-225 | after a pass without a change, no structure outside refers to a rejected one |
| `Choices.PassReads` | server/internal/entity/schema.go:215-234 | after one pass, every structure with an unreadable field has been rejected, so later passes cannot fail |
| `Choices.FilterStructureChoices` | server/internal/entity/schema.go:188-213 | keeps, at increasing positions of the input, exactly the structures that do not reach the edited one; without an edited one removes nothing; fails exactly when the first pass meets a typed nil |
| `Choices.OfferedIffSafe` | server/internal/entity/schema.go:188-213 | a structure is offered exactly when a reference to it from the edited one leaves the schema acyclic |
| `SchemaValues.ValidateValue` | server/internal/entity/schema.go:316-362 | on an acyclic schema accepts exactly the values that conform to the type, restoring the shared set |
| `SchemaValues.ValidateStructure` | server/internal/entity/schema.go:364-388 | the same for an object against a structure |
| `SchemaValues.KnownValue` | server/internal/entity/schema.go:351-362 | true exactly for one of the enum's values |
| `SchemaValues.SameSizeSameKeys` | server/internal/entity/schema.go:364-388 | comparing sizes and looking every field up is enough to exclude unknown members |
| `SchemaValues.ValidateConfig` | server/internal/entity/schema.go:99-117 | on an acyclic schema accepts exactly configs with a valid key, a resolved type and a decoded, conforming value |
| `SchemaValues.DefaultValue` | server/internal/entity/schema.go:390-413 | returns the default of the type, restoring the shared set; fails only on a cycle |
| `SchemaValues.DefaultStructure` | server/internal/entity/schema.go:415-430 | the same for a structure: one default per field and no other member |
| `ValueRules.TextTypes` | server/internal/entity/schema.go:432-436 | strings, images, videos and files accept exactly texts |
| `ValueRules.Integers` | server/internal/entity/schema.go:437-442 | integers accept exactly numbers written as an optional sign, zeros, and a decimal that fits in 64 bits with that sign |
| `ValueRules.PrintedIntegers` | server/internal/entity/schema.go:437-442 | the printed text of an integer is accepted exactly within the 64-bit range |
| `ValueRules.Decimals` | server/internal/entity/schema.go:443-448 | decimals accept exactly numbers that the float parser accepts |
| `ValueRules.Booleans` | server/internal/entity/schema.go:449-450 | booleans accept exactly true and false |
| `ValueRules.Times` | server/internal/entity/schema.go:451-456 | dates, times and date-times accept exactly texts that their own layout parses |
| `ValueRules.Ranges` | server/internal/entity/schema.go:457-462 | ranges accept exactly arrays of two texts that their own layout parses |
| `ValueRules.OtherBaseTypes` | server/internal/entity/schema.go:432-468 | no other base type accepts anything |
| `ValueRules.EnumsAndArrays` | server/internal/entity/schema.go:332-362 | enums accept exactly the text of one of their values, arrays exactly arrays of accepted elements |
| `ValueRules.Defaults` | server/internal/entity/schema.go:390-413 | the default of each base type, of an array and of an enum |
| `ValueRules.DefaultUnique` | server/internal/entity/schema.go:390-430 | a type has at most one default |
| `SchemaValues.DefaultConforms` | server/internal/entity/schema.go:133-152 | the default passes validation exactly when no path of non-array fields leads to a date, time or range |
| `SchemaValues.DateDefaultRefused` | server/internal/entity/schema.go:390-413 | the default of a date type is refused by the validation of that type |
| `SchemaValues.StructureDefaultRefused` | server/internal/entity/schema.go:415-430 | so is the default of a structure with a date field |
| `Publication.StepGood` | server/internal/logic/publish.go:114-161 | every operation keeps the invariant (one release, valid; one current; coherent cache), never lowers the runtime version, changes what is published only with it, and changes a snapshot only with its version |
| `Publication.RunGood` | server/internal/logic/publish.go:114-161 | the same for every run of operations, reads and cache losses |
| `Publication.CacheIsTransparent` | server/internal/logic/runtime.go:145-176 | under the invariant a cached read returns what an uncached one would |
| `Publication.EveryReadIsCurrent` | docs/architecture.md:79-84 | after any run a reader gets what the database says is published now |
| `Publication.VersionIdentifiesValue` | docs/architecture.md:79-84 | later reads never see a smaller version, and two reads of one version see the same value |
| `Publication.RestoreIsPristine` | server/internal/repository/config.go:80-113 | a configuration can be created or restored only with nothing published, no snapshots and nothing cached, so resetting its version is safe |
| `Publication.PublishActsOnWhatWasSeen` | server/internal/logic/publish.go:176-187 | publishing with a version seen earlier succeeds only if the snapshot is exactly as it was then |
| `Publication.PublishServesTarget` | server/internal/logic/publish.go:206-234 | publishing succeeds exactly under the listed conditions; then the target alone is released and is what is read, one version later |
| `Publication.UnpublishServesNothing` | server/internal/logic/publish.go:206-220 | unpublishing succeeds exactly for the released snapshot at the version seen; then nothing is served |
| `Publication.SetCurrentShape` | server/internal/repository/snapshot.go:218-271 | marking current changes no status or content and leaves exactly one current |
| `Publication.LoadKeepsDraft` | server/internal/logic/snapshot.go:217-280 | loading makes the target current and unchanged, and some snapshot holds the draft it replaces |
| `Publication.DeleteSnapshotKeeps` | server/internal/logic/snapshot.go:145-175 | deletion keeps the invariant: the current and the released snapshot survive it |
| `Publication.EditingIsInvisible` | server/internal/logic/snapshot.go:217-250 | any number of snapshots taken, loaded or deleted leaves the answer to readers as it was |
| `Publication.DeletableIffUnused` | server/internal/logic/snapshot.go:145-175 | a snapshot whose version is not exhausted can be deleted exactly when it is neither the current one nor the released one, and no other changes |
| `PublicationEffects.ConfigComesAndGoes` | server/internal/logic/config.go:241-259 | creation succeeds exactly when there is no live configuration and deletion exactly when there is one without snapshots; each undoes the other |
| `PublicationEffects.SetCurrentEffect` | server/internal/repository/snapshot.go:218-271 | succeeds exactly if the rows it writes have room for a version; the target becomes current, the previous one does not, both advance by one, and nothing else changes |
| `PublicationEffects.TakeEffect` | server/internal/logic/snapshot.go:70-117 | succeeds exactly for a valid draft of a live configuration whose current row has room; the new row holds the draft, unreleased and current, and the others keep status and content |
| `PublicationEffects.DraftReachesReaders` | docs/architecture.md:79-84 | taking and publishing a valid draft makes exactly it what readers get, under the next version; retiring it leaves nothing |
| `PublicationEffects.LoadEffect` | server/internal/logic/snapshot.go:217-280 | when loading succeeds, and its whole effect; unless the current snapshot has its text, the whole draft is stored in a new row |
| `PublicationEffects.PublishEffect` | server/internal/logic/publish.go:206-234 | only the target and the snapshot it replaces are written: status and one version each, contents and the current mark kept |
| `PublicationEffects.UnpublishEffect` | server/internal/logic/publish.go:206-220 | only the target is written |
| `PublicationEffects.PublishFailures` | server/internal/logic/publish.go:141-204 | a missing snapshot and an invalid content are reported exactly when that is the first thing wrong; anything else is a conflict |
| `PublicationEffects.ReadEffect` | server/internal/logic/runtime.go:145-176 | a read that finds something caches it under the current version and changes nothing else |
| `Publication.CacheKeyInjective` | server/internal/logic/runtime.go:193-195 | different projects, configurations or versions never share a cache key |
| `Permissions.ReplaceRolesGuarded` | server/internal/repository/user_environment_role.go:103-118 | a user's keys in an environment change only when its version grows, and assignments stay on live roles |
| `Permissions.UpdatePermissionsGuarded` | server/internal/repository/role.go:211-232 | changing a role's grants advances every environment where anyone's keys change |
| `Permissions.RoleListGuarded` | server/internal/repository/role.go:110-141 | creating a role, or deleting an unassigned one, changes nobody's keys, so advancing nothing is right |
| `PermissionEffects.KeyIsGranted` | server/internal/repository/permission.go:120-135 | a user has a key exactly if some live role the user holds there grants it |
| `PermissionEffects.ReplacementGrants` | server/internal/repository/user_environment_role.go:156-180 | after a replacement the member's keys there are exactly the union of what the given roles grant; every other user and environment keeps its keys |
| `PermissionEffects.ReplacementFrame` | server/internal/repository/user_environment_role.go:103-118 | exactly that environment advances, by one, and no role changes |
| `PermissionEffects.UpdateGrants` | server/internal/repository/role.go:211-232 | a holder of the changed role has exactly its new permissions and those of the other roles held |
| `PermissionEffects.UpdateFrame` | server/internal/repository/role.go:306-325 | exactly the environments where someone holds the role advance, by one |
| `PermissionEffects.ListEffects` | server/internal/repository/role.go:110-141 | a role is removed exactly if nobody holds it; the effects of creating roles and creating or updating environments |
| `PermissionEffects.QuietCall` | server/internal/permission/permission.go:126-155 | a call that nothing interferes with answers the keys in force and leaves them cached, whether or not it found them there |
| `PermissionEffects.GrantsAreAnswered` | server/internal/permission/permission.go:115-155 | after a replacement, such a call answers exactly the union of what the given roles grant |
| `Permissions.StepKeeps` | server/internal/permission/permission.go:126-155 | every step of any resolver or writer keeps: whatever is cached or loaded under the current version is right |
| `Permissions.RunKeeps` | server/internal/permission/permission.go:126-155 | the same for every interleaving |
| `Permissions.AnswersWereInForce` | server/internal/permission/permission.go:115-155 | in every run, the keys a call has answered or is about to belong to the user and environment of its last request, which no other has replaced; they were in force at a later event, which confirmed them, and the call has carried them since |
| `Permissions.TurnedBackIffGenerationMoved` | server/internal/permission/permission.go:142-150 | an attempt is turned back exactly when the environment's version has grown since it began; the call is then over exactly if it was its last attempt |
| `Permissions.GivesUpOnlyAfterThreeChanges` | server/internal/permission/permission.go:115-124 | a call ends in a concurrent-change error only after attempts 0, 1 and 2, one after the other: each begins by reading the version in its key, is at work on that key throughout, and at its confirmation has its keys loaded and finds the version grown |
| `Permissions.GivesUpExactlyThen` | server/internal/permission/permission.go:115-150 | an event ends a call in that error exactly when it confirms such a third attempt |
| `Permissions.CurrentEntriesAreRight` | server/internal/permission/permission.go:168-195 | a cache entry for the current version is never wrong |
| `KeyLists.Normalize` | server/internal/permission/permission.go:314-326 | the result is strictly sorted and holds exactly the non-empty keys of the input; a list already in this form is returned as it is |
| `KeyLists.ByteOrder` | server/internal/permission/permission.go:314-326 | the order is that of bytes: a prefix first, else the smaller byte at the first difference |
| `KeyLists.Compact` | server/internal/permission/permission.go:314-326 | the in-place loop leaves a strictly sorted front holding exactly the non-empty keys of the sorted input |
| `KeyLists.NormalFormUnique` | server/internal/permission/permission.go:314-326 | a normalized list is determined by its set of keys |

## Left out

- The flat request validators (asset, project, API key, publication, snapshot, and the scalar rules around the modelled
  loops of environment, role, structure, enum and config requests): the same pattern, only easy members.
- `Structure.validate`, the field loop of the structure requests and `ConfigDetailReply`: the tree's `Field` validator
  in the same embedding loop that is modelled for children and options.
- The reply validators for roles, permissions and members: they have no rule and accept everything.
- The `key` flag of a validation error: no validator sets it, so its text is never printed.
- Cyclic Go pointer graphs: messages are finite trees, as decoded messages are.
- The regular-expression engine: the fixed patterns are predicates on bytes.
- Time layouts and `ParseFloat`: parameters of `SchemaValues`; the default lemma assumes of them only that the empty
  text is no date or time and that `0` is a number. JSON text decoding and encoding is a parameter too.
- `Schemas.NewSchema`: does not model the message texts of schema errors, except the path of a cycle.
- `SchemaValues.ValidateConfig`: nothing is stated for a cyclic schema; `NewSchema` never returns one.
- `Choices.FilterStructureChoices`: does not model a nil item in the list; stored structures are never nil.
- `Publication`: each operation is one atomic step, since all of them, reads included, lock the configuration's row
  first; audit records, tags, the draft's own rows and version, and cache errors other than a miss are not modelled.
  Whether a content text decodes, belongs to the configuration and satisfies its schema is a property of the content.
- Snapshot import: idempotency keys, request hashes and replay; its effect on snapshots is that of taking one.
- `Permissions`: the system-administrator path, account and membership checks and the refusal of system permissions in
  roles; versions are unbounded there; environments are never deleted in the source.
- `KeyLists.Normalize`: does not model the algorithm of `sort.Strings`; any sort of the keys gives the same list.
- HTTP and gRPC transport, sessions and tokens, API keys, object storage, setup state, the web front end.
