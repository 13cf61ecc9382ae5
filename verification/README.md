# Verified models of the Baukit core

Dafny models of the parts of Baukit whose correctness spans many steps, with proofs of what these
parts are for. `dafny verify dfyconfig.toml` checks everything.

- **OpenAPI compatibility** (`SchemaComparison`, `SchemaSoundness`, `DocumentComparison` and the files
  they import). The checker walks two possibly recursive documents in lock step and reports what a
  client of the base document may notice. `Conformance` says independently what a schema accepts;
  the main results are that a comparison without reports is sound in both directions, for single
  schemas and for whole documents. `SchemaExactness`, `SchemaReports`, `MatchingOrder` and
  `DocumentExactness` say the rest: which rule is reported when, and where, neither less nor more.
- **Personal access tokens** (`TokenTable`, `TokenStore`, `TokenLimit`, `ApiTokens`,
  `TokenLifecycle`). SQL statements are atomic steps on a table. The limit on active tokens is
  proved over all interleavings of transactions, and verification over all runs.
- **Import search** (`ScreenModules`). A breadth-first search with a depth bound is exact because
  its queue is first in, first out.
- **Text machines** (`MakefileVariables`, `IdentityCode` with `Utf8`, `ShellCommand`,
  `ReconcileEnv`). Each loop is proved against a simple meaning of the text, and `MakefileMeaning`,
  `MaskedLiterals` and `EnvKeys` state that meaning on the text as a writer puts it down.
- **Canonical encodings** (`MediaGrant` with `Decimal` and `Base64Url`, `WebhookSignature`). Parsers
  and printers are inverse to each other, and signing inputs are injective.

## What the comparison takes for granted

The checker is not sound on all documents. Soundness is proved under assumptions about the pairs it
meets, collected in `SchemaSoundness.Granted` and `SchemaSoundness.Comparable`. A lemma of
`SchemaLimits`, named with the assumption, gives documents on which dropping it loses values without
a report.

- Both sides are schema objects, unless the narrower side accepts nothing or the wider everything
  (`ClosedSchemaIsMissed`).
- A pair is skipped only when both sides are references (`OneSidedSkipIsUnsound`).
- Enums do not rely on the difference between booleans and numbers, which Python equality does not
  see (`BooleanEnumIsConfused`), and `const` is among the values of `enum` where both are given
  (`ConstHidesEnum`).
- `items` is present on the narrower side whenever arrays are possible and the wider side has it
  (`NewItemsAreMissed`); section 4.7.24 of the OpenAPI Specification 3.0.3 requires it.
- A schema for undeclared properties faces one, or `false`, on the narrower side
  (`NewExtraSchemaIsMissed`).
- Request values do not use names that only the current document declares (`NewPropertyMayClash`),
  and response readers tolerate undeclared properties.
- `required` names declared properties (responses, `UndeclaredRequiredIsMissed`).
- `oneOf` is read as at least one member (`AddedAlternativeMayOverlap`).
- Bounds that are not numbers restrict nothing, as in the checker.

Two more things a clean comparison does not promise. Where two paths of the base document differ only
in the names of their variables, only the later one's operation under each method is compared
(`DocumentLimits.ShadowedOperationIsNotCompared`). And a default that only the current document
declares, or one that faces the schema `true`, may change what an omitted property means
(`SchemaDefaults.NewDefaultIsMissed`, `SchemaDefaults.DefaultOfTrueIsMissed`); exactly when it does
not is `SchemaDefaults.OmittedPropertiesReadTheSame`.

Comparisons terminate on all documents, mutually recursive references included. Dafny checks this
by the `decreases` clauses of `SchemaComparison.Walk` and of the class: the reference pairs that can
still be followed (`SchemaComparison.RememberShrinks`), then the size of the schema.

## How recursion is read

Conformance is indexed by a number of unfolding steps, with an arbitrary answer (`floor`) when none
are left. The theorems hold for every number of steps and for both answers, so they cover the
greatest reading of a recursive schema (conforms for every number, `floor` true) and the least one.

Text is a sequence of Unicode scalar values, except where the code works on bytes.

## Model

| member | source | states |
|---|---|---|
| SchemaSoundness.RequestSoundness | scripts/check-openapi-compatibility.py:2-6 | Soundness for requests, recursive schemas included: if comparing two schemas reports and raises nothing and the listed assumptions hold of the pairs compared, then every JSON value that conforms to the base schema (and uses no newly declared name) conforms to the current one, for every number of unfolding steps |
| SchemaSoundness.ResponseSoundness | scripts/check-openapi-compatibility.py:240-257 | The same in the other direction: every value the current schema can return conforms to the base schema as a client that tolerates undeclared properties reads it |
| SchemaSoundness.WalkSound | scripts/check-openapi-compatibility.py:240-257 | Soundness of a comparison in progress, from any set of pairs already being compared: cutting a cycle is justified because those pairs are sound for one step less (the simulation argument) |
| SchemaSoundness.ChildSound | scripts/check-openapi-compatibility.py:242-245 | Each subschema pair of a compared pair is sound one step further down, with the pair itself among those that may be skipped |
| SchemaSoundness.KeywordsSound | scripts/check-openapi-compatibility.py:246-257 | One pair of schema objects: if no check reports and the subschema pairs carry over, then what the narrower object accepts the wider one accepts |
| SchemaSoundness.ScalarsSound | scripts/check-openapi-compatibility.py:259-328 | Types, enums, bounds, uniqueness, multiples, patterns and formats carry over in the right direction when nothing is reported |
| SchemaSoundness.FieldsSound | scripts/check-openapi-compatibility.py:340-369 | Required names, declared properties and additional properties carry over |
| SchemaSoundness.MembersSound | scripts/check-openapi-compatibility.py:375-399 | `anyOf`, `oneOf` and `allOf` carry over in both directions: the reported side of unmatched members is the right one |
| SchemaLimits.CoversIsExact | scripts/check-openapi-compatibility.py:560-565 | `covers` says yes if and only if every JSON value of the narrower types has one of the wider types, apart from two cases, given exactly, in which it says no although nothing is lost: no narrower types against all kinds, and an unknown type name the wider side does not list |
| SchemaLimits.BoundIsStricterIsExact | scripts/check-openapi-compatibility.py:583-588 | A bound of any of the ten keywords excludes a value the other one allows if and only if it counts as stricter and, for lengths and counts, some count lies between the two |
| SchemaLimits.MissesValuesIsExact | scripts/check-openapi-compatibility.py:579-580 | A value of the source is not among the targets if and only if one is reported missing or equality takes a target for it; on enums without such values the report is exact |
| SchemaLimits.BooleanEnumIsConfused | scripts/check-openapi-compatibility.py:281-285 | The assumption on enums is needed: `enum: [true]` may become `enum: [1]` unreported, and a value is lost |
| SchemaLimits.ConstHidesEnum | scripts/check-openapi-compatibility.py:572-576 | The assumption on `const` is needed: an `enum` beside it may exclude its value unreported |
| SchemaLimits.ClosedSchemaIsMissed | scripts/check-openapi-compatibility.py:248-249 | The assumption on schema objects is needed: one that becomes `false` rejects everything unreported |
| SchemaLimits.UndeclaredRequiredIsMissed | scripts/check-openapi-compatibility.py:361-365 | In responses, the assumption on required names is needed: one that is not declared may go missing unreported |
| SchemaLimits.NewItemsAreMissed | scripts/check-openapi-compatibility.py:371-373 | The assumption on `items` is needed: a value the base accepts is rejected and nothing is reported |
| SchemaLimits.NewExtraSchemaIsMissed | scripts/check-openapi-compatibility.py:366-369 | The assumption on schema-valued `additionalProperties` is needed |
| SchemaLimits.NewPropertyMayClash | scripts/check-openapi-compatibility.py:345-350 | The assumption on newly declared names is needed: an undeclared key may clash with the new property |
| SchemaLimits.OneSidedSkipIsUnsound | scripts/check-openapi-compatibility.py:241-245 | Skipping a pair with a reference on one side only is unsound: two different inline schemas share a key, and a base value is rejected without a report |
| SchemaLimits.AddedAlternativeMayOverlap | scripts/check-openapi-compatibility.py:397-399 | Reading `oneOf` as exactly one breaks soundness: an added alternative may overlap |
| SchemaComparison.RememberShrinks | scripts/check-openapi-compatibility.py:242-245 | Remembering a followed pair of references leaves strictly fewer pairs that can still be followed |
| SchemaComparison.SchemaComparison.Compare | scripts/check-openapi-compatibility.py:240-257 | The recursive method appends to the list exactly the breaks of the walk, in this direction, and returns an error only if the walk raises it; nothing already in the list is lost. Which breaks those are is `ReportsAreExact` |
| SchemaComparison.SchemaComparison.CompareKeywords | scripts/check-openapi-compatibility.py:246-257 | The checks of a pair of schema objects append its own breaks and those of its subschema pairs, and no others |
| SchemaComparison.SchemaComparison.CompareTypes | scripts/check-openapi-compatibility.py:259-271 | Appends a break exactly when the direction's narrower side is not covered |
| SchemaComparison.SchemaComparison.CompareEnum | scripts/check-openapi-compatibility.py:273-285 | Appends a break exactly when the direction's enum lost or gained a value |
| SchemaComparison.SchemaComparison.CompareBounds | scripts/check-openapi-compatibility.py:287-318 | Appends a break exactly when one of the ten bounds, `uniqueItems` or `multipleOf` changed against the direction |
| SchemaComparison.SchemaComparison.CompareStrings | scripts/check-openapi-compatibility.py:320-328 | Appends a break exactly when the pattern or format that binds the peer changed |
| SchemaComparison.SchemaComparison.CompareDefault | scripts/check-openapi-compatibility.py:330-338 | Appends a break exactly when a request's default is not kept, which `OmittedPropertiesReadTheSame` gives its meaning |
| SchemaDefaults.OmittedPropertiesReadTheSame | scripts/check-openapi-compatibility.py:330-338 | What the rule is for, exactly: when a request comparison reports nothing, then wherever it compares two schema objects, no declared property is lost, and a name is read the same on both sides (sent or omitted, up to Python's equality) if and only if its default is shared: a base default that is not null faces a schema object, and where the base has no default the current side has none that is not null |
| SchemaDefaults.WalkKeepsDefaults | scripts/check-openapi-compatibility.py:330-338 | A clean request comparison keeps the default of every pair of schema objects it visits, and of the schema itself, behind references and cycles too |
| SchemaDefaults.NewDefaultIsMissed | scripts/check-openapi-compatibility.py:331-333 | The first half of that condition is needed: any default but null that only the current schema declares changes what an omission means, and nothing is reported |
| SchemaDefaults.DefaultOfTrueIsMissed | scripts/check-openapi-compatibility.py:248-249 | The other half is needed: a property with a default that becomes the schema `true` loses it, and nothing is reported |
| SchemaComparison.SchemaComparison.CompareObject | scripts/check-openapi-compatibility.py:340-369 | Appends the breaks of properties, required names and closed additional properties, to which `LocalBreaksAreExact` gives meaning, and those of the subschema pairs |
| SchemaComparison.SchemaComparison.CompareItems | scripts/check-openapi-compatibility.py:371-373 | Appends the breaks of the item pair, when both sides have one |
| SchemaComparison.SchemaComparison.CompareComposition | scripts/check-openapi-compatibility.py:375-395 | Appends the composition breaks and those of all matched members, for the three keywords |
| SchemaReports.ReportsAreExact | scripts/check-openapi-compatibility.py:240-257 | When a whole comparison reports: a rule is reported if and only if some pair of schema objects, reached from both schemas by the same steps, warrants it, provided pairs are skipped only where both sides are references |
| SchemaReports.ReportsAreWarranted | scripts/check-openapi-compatibility.py:240-257 | No report is false or misplaced, skips or not: its pointer leads both schemas to a pair of objects that warrants the rule at the end of the pointer |
| SchemaReports.OneSidedSkipHidesAReport | scripts/check-openapi-compatibility.py:241-245 | The proviso is needed: a reached pair whose type changed is skipped, and nothing is reported |
| SchemaReports.ChildrenAreExact | scripts/check-openapi-compatibility.py:345-395 | Subschemas are compared if and only if one step leads to both; members of compositions, if and only if the base member stands at that index and is paired with the current one |
| SchemaExactness.LocalBreaksAreExact | scripts/check-openapi-compatibility.py:259-399 | What a pair of schema objects reports, rule by rule and place by place, if and only if: a value of the narrower types lost, a written value equal to none of the other side, a number that a bound excludes, a set of fields that lacks just this name, a declared property gone, undeclared properties refused, an alternative or part without a partner |
| SchemaExactness.RequiredNamesAreExact | scripts/check-openapi-compatibility.py:352-365 | A name is reported for a request if and only if some set of fields that was enough lacks just it now, and for a response if and only if some set that is enough now lacked just it and it is still declared |
| SchemaExactness.NoRequiredNames | scripts/check-openapi-compatibility.py:352-365 | No name is reported for a request if and only if every set of fields that was enough still is; for a response, if and only if every set that is enough now has all that was required and is still declared |
| SchemaExactness.CoversMeans | scripts/check-openapi-compatibility.py:259-271 | The type check refuses if and only if a value of the narrower side has no type of the wider one, or the narrower side has no types, or a type name the wider side does not know; `nullable` admits null |
| SchemaExactness.MissesMeans | scripts/check-openapi-compatibility.py:273-285 | Between two restricted sides the enum check refuses if and only if a value written on one side equals, in Python, none written on the other |
| SchemaExactness.SameValueIsPyEqual | scripts/check-openapi-compatibility.py:338 | The rewriting that stands for equality of JSON values is Python's equality, defined independently: `True == 1`, inside arrays and objects too |
| CompositionMatching.MatchCompositionMembers | scripts/check-openapi-compatibility.py:414-441 | The two popping loops compute the matching |
| CompositionMatching.MatchIsMaximal | scripts/check-openapi-compatibility.py:414-441 | The matching is injective and maximal: pairs and removed are the base list, pairs and added the current list, each as a multiset; pairs come out in base order, each with the base member of its index; no removed member equals or shares an identity with an added one |
| CompositionMatching.MatchCovers | scripts/check-openapi-compatibility.py:414-441 | With nothing removed every base member is paired, with nothing added every current one is |
| CompositionMatching.ReorderingPairsEquals | scripts/check-openapi-compatibility.py:420-427 | Reordering members is invisible: each is paired with an equal one and nothing is left over |
| CompositionMatching.MatchOfItself | scripts/check-openapi-compatibility.py:414-441 | A list matched with itself pairs each member with itself |
| MatchingOrder.MatchMeans | scripts/check-openapi-compatibility.py:414-441 | Which members are paired: equal ones first, the n-th on one side with the n-th on the other key by key; of what they leave, the n-th of one identity with the n-th of that identity; what is left then, on either side, was removed or added |
| MatchingOrder.PassLeaves | scripts/check-openapi-compatibility.py:421-427 | One pass leaves, on either side and in order, exactly the members that outnumber those with their key on the other side |
| SchemaExactness.EqualityIsExact | scripts/check-openapi-compatibility.py:422 | Members are paired as equal if and only if their dictionaries are equal in Python, nested schemas and values included |
| SchemaExactness.IdentityIsExact | scripts/check-openapi-compatibility.py:402-411 | Two members share an identity if and only if they are references to one target or inline objects that declare the same types, in any order |
| SchemaReflexivity.SchemaIsCompatibleWithItself | scripts/check-openapi-compatibility.py:240-257 | A schema of any document whose references resolve, cyclic through properties or not, never breaks against itself |
| SchemaReflexivity.WalkOfItself | scripts/check-openapi-compatibility.py:240-257 | Comparing a schema with itself compares only equal objects and raises nothing, from any set of seen pairs |
| Resolution.ResolveNode | scripts/check-openapi-compatibility.py:450-457 | The loop that follows references computes the resolution |
| Resolution.ResolveIsExact | scripts/check-openapi-compatibility.py:450-457 | Resolution gives a value if and only if the chain of references ends in it, an unresolved target if and only if the chain ends in one, and a reference cycle if and only if the chain never ends |
| Security.CompareSecurity | scripts/check-openapi-compatibility.py:124-134 | The loop collects the base options no current option accepts |
| Security.CompareSecurityIsExact | scripts/check-openapi-compatibility.py:523-536 | Nothing is lost if and only if every credential set some base option accepts is accepted by some current option; every lost option is itself a witness |
| Security.OptionsAdmit | scripts/check-openapi-compatibility.py:523-536 | Credentials meet an option of an operation if and only if the operation admits them: its own list decides where it has one, the empty list admits everything, the document's list decides otherwise, and every scheme of one requirement needs all its scopes |
| PathTemplates.ScanIsScanned | scripts/check-openapi-compatibility.py:472-473 | The scan for path variables is a splitting of the path, and no other variable could have been found in it |
| PathTemplates.ScanOfRendered | scripts/check-openapi-compatibility.py:472-473 | Writing the pieces out and scanning again gives the same pieces |
| PathTemplates.RenamedPath | scripts/check-openapi-compatibility.py:472-473 | Renaming variables keeps the normalized path and the number and order of variables |
| PathTemplates.VariableIsRead | scripts/check-openapi-compatibility.py:472-473 | A nonempty name without `}` and `/` between braces gives that variable, is written `{}` in the normalized path, and the path goes on behind it |
| PathTemplates.CharacterStays | scripts/check-openapi-compatibility.py:472-473 | Any other character stays, an opening brace that opens no variable included |
| DocumentComparison.EmptyListProtectsClients | scripts/check-openapi-compatibility.py:2-6 | The checker's promise over the document: when the check ends without an error and with an empty list, and the listed assumptions hold, every selected path of both documents resolves, and every operation of the base document that no later path shadows is still there, serves every call a base client makes and gives only replies a base client expects |
| DocumentComparison.Check | scripts/check-openapi-compatibility.py:91-104 | Ends without an error if and only if nothing visited raises one; the list then holds exactly the reports of the findings, which `FindingsAreExact` describes, and otherwise the error is one of theirs |
| DocumentComparison.Comparison.Run | scripts/check-openapi-compatibility.py:91-104 | Collects both documents' operations and appends exactly the reports of all base operations, or stops with an error one of them raises |
| DocumentComparison.Comparison.CompareOperation | scripts/check-openapi-compatibility.py:106-122 | Appends exactly the reports of one operation, in five checks |
| DocumentComparison.Comparison.CompareSecurityOptions | scripts/check-openapi-compatibility.py:124-134 | Appends one report for each lost security option; which these are, of the two documents, is part of `FindingsAreExact` |
| DocumentComparison.Comparison.CompareParameters | scripts/check-openapi-compatibility.py:136-158 | Appends exactly the reports of the merged parameters, or stops when merging or comparing them raises an error |
| DocumentComparison.Comparison.CompareRequestBody | scripts/check-openapi-compatibility.py:160-179 | Appends exactly the reports of the request body and its content |
| DocumentComparison.Comparison.CompareResponses | scripts/check-openapi-compatibility.py:181-202 | Appends exactly the reports of added success statuses, removed statuses and the content of kept ones |
| DocumentComparison.Comparison.CompareContent | scripts/check-openapi-compatibility.py:204-217 | Appends exactly the reports of removed media types and of the schemas of kept ones |
| DocumentComparison.Comparison.CompareSchema | scripts/check-openapi-compatibility.py:219-222 | Appends exactly the breaks of one schema comparison, placed |
| DocumentExactness.FindingsAreExact | scripts/check-openapi-compatibility.py:91-217 | What a comparison of two documents finds, if and only if: an operation gone; its ID changed; a security option that was asked for and is no longer admitted; a parameter or body newly required; a parameter, status or media type gone; a success status added. And schemas are compared exactly where both operations have them, in the direction of the place |
| DocumentExactness.KeyOfIsExact | scripts/check-openapi-compatibility.py:501-508 | Two parameters are taken for the same if and only if they stand at one position of both path templates, are headers whose names differ in case only, or agree on location and name |
| DocumentComparison.CollectOperations | scripts/check-openapi-compatibility.py:476-487 | The loops over paths and methods give the map of operations that `OperationsMean` describes, or the first error |
| DocumentComparison.CollectParameters | scripts/check-openapi-compatibility.py:490-498 | The loops over both parameter lists give the map that `MergeMeans` describes, or the first error |
| DocumentOperations.OperationsMean | scripts/check-openapi-compatibility.py:476-487 | Which operations are compared: a key is collected if and only if some selected path has an operation with this method and normal form, and it holds the operation of the last such path |
| DocumentOperations.OperationsSucceed | scripts/check-openapi-compatibility.py:479-481 | Collecting succeeds if and only if every selected path resolves |
| DocumentOperations.SelectedIsExact | scripts/check-openapi-compatibility.py:479 | A path is selected if and only if it continues one of the prefixes, or there are none |
| OpenApiDocument.ItemEntriesMean | scripts/check-openapi-compatibility.py:482-486 | A path item has an entry, under its method and normalized path, for each of its operations and no other |
| DocumentOperations.MergeMeans | scripts/check-openapi-compatibility.py:490-498 | Merging parameters succeeds if and only if all of them resolve; a key is in the result if and only if some parameter has it, and it holds the last such parameter, so an operation's own parameter wins over the path item's |
| DocumentLimits.OnlyShownOperationsCount | scripts/check-openapi-compatibility.py:91-104 | A comparison depends on the base document's paths only through the operations collected from them, and of an entry only on path, operation and shared parameters |
| DocumentLimits.ShadowedOperationsDoNotCount | scripts/check-openapi-compatibility.py:485-486 | For every document, taking away an operation that a later path shadows changes nothing a comparison finds |
| DocumentLimits.ShadowedOperationIsNotCompared | scripts/check-openapi-compatibility.py:485-486 | What that means for clients, on two base paths that differ only in variable names: the earlier operation disappears, its clients are no longer served, and nothing is reported |
| DocumentComparison.RenamedCopyPasses | scripts/check-openapi-compatibility.py:472-508 | On a document whose references resolve, the check of the document against a copy with renamed path variables ends without error and with an empty list |
| DocumentContract.CleanComparisonProtectsClients | scripts/check-openapi-compatibility.py:91-122 | After a clean comparison every collected base operation still exists, serves every call a base client makes (credentials, parameters, body) and gives only replies a base client expects (status, media type, value) |
| DocumentContract.SecurityServed | scripts/check-openapi-compatibility.py:124-134 | Credentials that a base operation admits, by its own list or the one of the document, are admitted by the current one |
| DocumentContract.ArgumentsServed | scripts/check-openapi-compatibility.py:136-158 | Arguments a base client sends are known, conform, and include every required one |
| DocumentContract.BodyServed | scripts/check-openapi-compatibility.py:160-179 | The body a base client sends, or its absence, is served |
| DocumentContract.ReplyExpected | scripts/check-openapi-compatibility.py:181-217 | A reply of the current operation has a status, media type and value that a base client expects |
| DocumentRenaming.RenamingIsCompatible | scripts/check-openapi-compatibility.py:472-508 | A copy of a document whose path variables are renamed one to one, with their inline parameters, reports nothing, and when all references of the document resolve it raises nothing either |
| DocumentRenaming.MergeRenamed | scripts/check-openapi-compatibility.py:490-508 | Merging the renamed parameters gives the same keys, with parameters that agree on everything but the name |
| DocumentRenaming.OperationsRenamed | scripts/check-openapi-compatibility.py:476-487 | The renamed document has the same operations under the same keys |
| DocumentRenaming.OperationsResolve | scripts/check-openapi-compatibility.py:476-487 | In a document whose references resolve, collecting the operations cannot fail |
| DocumentRenaming.DocumentIsCompatibleWithItself | scripts/check-openapi-compatibility.py:91-104 | A document compared with itself reports nothing, and raises nothing when its references resolve |
| TokenLimit.ActiveLimit | rust/crates/baukit-auth/src/postgres.rs:48-54 | Concurrent issues cannot overshoot: after every interleaving of issues, touches, revocations, purges and erasures, from any table, an owner has at most `maximum` active tokens at every instant from the creation of the owner's last committed token on |
| TokenLimit.StepKeepsInvariant | rust/crates/baukit-auth/src/postgres.rs:65-94 | Every step keeps the invariant: lock holders differ, a lock holder's count still bounds the current count, and the limit holds |
| TokenLimit.RunKeepsInvariant | rust/crates/baukit-auth/src/postgres.rs:65-94 | So does every run |
| TokenLimit.LaterCountsLess | rust/crates/baukit-auth/src/postgres.rs:276-281 | Active tokens only get fewer as the instant grows |
| TokenLimit.StatementsOnlyShrink | rust/crates/baukit-auth/src/postgres.rs:114-149 | Touching, revoking, purging and erasing never add an active token |
| TokenLimit.RejectionIsJustified | rust/crates/baukit-auth/src/postgres.rs:52-54 | In every run, from any state: a transaction that has counted may be rejected if and only if its owner had at least `maximum` active tokens at the step at which it counted, which was its last step; it may insert only if the owner had fewer; rejecting only ends the transaction |
| TokenLimit.OnlyPublishWrites | rust/crates/baukit-auth/src/postgres.rs:75-93 | A transaction changes the committed rows in no step but its commit |
| TokenLimit.IssueAlone | rust/crates/baukit-auth/src/postgres.rs:65-94 | Below the limit an issue that runs alone can take all its steps, adds exactly its row and leaves no lock behind |
| TokenLimit.EarlierInstantsMayExceed | rust/crates/baukit-auth/src/postgres.rs:50-54 | The instant matters: under every positive 32-bit limit, and however owners share locks, some run leaves an owner with more active tokens than the limit at an instant before the last creation |
| TokenStore.PostgresApiTokenStore.CreateToken | rust/crates/baukit-auth/src/postgres.rs:65-94 | Rejects by policy if and only if the limit is reached; succeeds if and only if it is not, keys are free and the constraints hold; adds exactly the new row, or changes nothing |
| TokenStore.PostgresApiTokenStore.LockAndCountActive | rust/crates/baukit-auth/src/postgres.rs:266-286 | Looking at each row once counts the owner's unrevoked tokens that expire after the instant |
| TokenStore.PostgresApiTokenStore.InsertApiToken | rust/crates/baukit-auth/src/postgres.rs:298-324 | Succeeds if and only if keys are free and the constraints hold; adds exactly the new row, or changes nothing |
| TokenStore.PostgresApiTokenStore.FindToken | rust/crates/baukit-auth/src/postgres.rs:96-112 | Finds a row if and only if one has the digest |
| TokenStore.PostgresApiTokenStore.Touch | rust/crates/baukit-auth/src/postgres.rs:114-129 | Moves the last use forward only, and of this row only |
| TokenStore.PostgresApiTokenStore.RevokeToken | rust/crates/baukit-auth/src/postgres.rs:131-149 | Says whether this owner's row was unrevoked; afterwards it is not, and a first revocation time is kept |
| TokenStore.PostgresApiTokenStore.PurgeInactiveApiTokens | rust/crates/baukit-auth/src/postgres.rs:233-264 | Deletes the lowest deletable ids up to the limit, rows revoked or expired before the cutoff and not locked; fewer than the limit means none is left that could be deleted |
| TokenStore.PostgresApiTokenStore.EraseOwnerApiTokens | rust/crates/baukit-auth/src/postgres.rs:212-231 | Deletes exactly the owner's rows and returns how many |
| TokenTable.Lowest | rust/crates/baukit-auth/src/postgres.rs:250-256 | The batch is the lowest ids, at most `limit` of them, and all of them if fewer |
| TokenTable.FindByHash | rust/crates/baukit-auth/src/postgres.rs:96-112 | On a table with unique digests, the row with the digest, if and only if there is one |
| TokenTable.InactiveIsExact | rust/crates/baukit-auth/src/postgres.rs:250-254 | A row counts as inactive if and only if at some instant before the cutoff it was revoked, or would not have been active even unrevoked |
| TokenTable.PurgeIsExact | rust/crates/baukit-auth/src/postgres.rs:241-263 | A purge deletes unlocked inactive rows only, no more than the limit, leaves the other rows as they are, and leaves an unlocked inactive row only if the batch is full |
| TokenTable.EraseIsExact | rust/crates/baukit-auth/src/postgres.rs:225-228 | Exactly the rows of other owners are left, unchanged |
| TokenTable.RevokeIsExact | rust/crates/baukit-auth/src/postgres.rs:131-149 | A revocation sets the time of an unrevoked row of this owner, keeps an earlier one, and changes nothing else |
| TokenTable.InsertIsExact | rust/crates/baukit-auth/src/postgres.rs:298-324 | A new row carries what the record says, unused and unrevoked, and the other rows stay |
| TokenLifecycle.ApiTokenService.VerifyAt | rust/crates/baukit-auth/src/api_token.rs:795-825 | Decides as specified on the rows before the call, records the use exactly on success and changes nothing otherwise |
| TokenLifecycle.ApiTokenService.RevokeAt | rust/crates/baukit-auth/src/api_token.rs:766-782 | Succeeds if and only if the owner's token was unrevoked, and revokes exactly it |
| TokenLifecycle.VerifyIsExact | rust/crates/baukit-auth/src/api_token.rs:784-825 | Over every run: a presented text verifies if and only if a stored row issued for that secret is unrevoked and expires later, if at all |
| TokenLifecycle.VerifyMeans | rust/crates/baukit-auth/src/api_token.rs:795-825 | It is reported as expired if and only if its row is stored and unrevoked but no longer active; every other failure is invalid |
| TokenLifecycle.StepKeepsInvariant | rust/crates/baukit-auth/src/api_token.rs:795-825 | Issuing, using, revoking, purging and erasing keep rows consistent with the secrets issued and the uses made |
| TokenLifecycle.RevokedNeverVerifies | rust/crates/baukit-auth/src/api_token.rs:765-782 | After a revocation that found the token, its secret is invalid at every instant after every further run |
| TokenLifecycle.ErasedNeverVerifies | rust/crates/baukit-auth/src/postgres.rs:212-231 | After an erasure of its owner, a secret is invalid at every instant after every further run |
| TokenLifecycle.PurgeKeepsVerification | rust/crates/baukit-auth/src/postgres.rs:233-264 | A purge up to now changes no successful verification from now on |
| TokenLifecycle.IssuedVerifies | rust/crates/baukit-auth/src/api_token.rs:725-750 | An issued secret verifies until it expires |
| TokenLifecycle.OrderOfUsesDoesNotMatter | rust/crates/baukit-auth/src/postgres.rs:114-129 | Touching with the same instants in any order and number gives the same table |
| TokenLifecycle.LastUseIsLatest | rust/crates/baukit-auth/src/postgres.rs:114-129 | Over every run the last use of a stored token is the maximum of its uses |
| ApiTokens.Generate | rust/crates/baukit-auth/src/api_token.rs:595-614 | The refilling loop gives the marker and the first 32 accepted characters of the random bytes, however they are split into draws |
| ApiTokens.GeneratedIsWellFormed | rust/crates/baukit-auth/src/api_token.rs:564-570 | Every generated secret is well formed |
| ApiTokens.CharactersAreEquallyLikely | rust/crates/baukit-auth/src/api_token.rs:589-596 | Exactly four of the accepted bytes give each character |
| ApiTokens.AlphabetIsAlphanumeric | rust/crates/baukit-auth/src/api_token.rs:534-535 | The alphabet is the ASCII letters and digits, so the marker's underscore cannot occur in the body |
| ApiTokens.MarkersAre | rust/crates/baukit-auth/src/api_token.rs:536-545 | A marker is accepted if and only if it is a nonempty alphanumeric text with an underscore behind it; the separator is reported missing if and only if there is no underscore at the end |
| ApiTokens.MarkersDoNotCollide | rust/crates/baukit-auth/src/api_token.rs:534-535 | No text starts with the markers of two different formats |
| ApiTokens.TokenNamesItsFormat | rust/crates/baukit-auth/src/api_token.rs:514-518 | The marker of a well-formed token ends at the token's only underscore |
| ApiTokens.PreparedIsStorable | rust/crates/baukit-auth/src/api_token.rs:725-750 | What the service prepares is the request with its name trimmed, under this id, owner and instant; the second validation in the store accepts it unchanged, it meets every database constraint, is active when created, and shows the marker and eight characters of the secret only |
| ApiTokens.ValidationIsExact | rust/crates/baukit-auth/src/api_token.rs:471-484 | The validation succeeds if and only if the constraints of the table hold and all grants are valid, and each error has its exact condition: an expiry is refused if and only if no such token could be active |
| ApiTokens.GrantIsExact | rust/crates/baukit-auth/src/api_token.rs:486-492 | A grant is valid if and only if it is 1 to 128 printable ASCII characters without space, quote and backslash |
| ScreenModules.FindScreenModules | cli/src/doctor_layout.rs:621-647 | The breadth-first search ends on every finite, also cyclic, set of files; it returns precisely the project's modules reached from a screen by at most 16 imports, and fails if and only if some file on the way cannot be read |
| ScreenModules.SearchIsComplete | cli/src/doctor_layout.rs:629-646 | When the queue is empty, what was found is exactly what is near: each module was first taken from the queue at its shortest distance |
| ScreenModules.AddKeeps | cli/src/doctor_layout.rs:634-644 | Taking a new module from the queue and adding its imports at the end keeps the queue ordered by depth and loses nothing |
| ScreenModules.ReachedMeansPath | cli/src/doctor_layout.rs:638-644 | Reached in n steps means an import path of length n from a screen |
| ScreenModules.NearMeansShortPath | cli/src/doctor_layout.rs:622-637 | Near means the end of an import path of length at most 16 |
| MakefileVariables.ExpandMakefileVariables | cli/src/lib.rs:1695-1737 | The scanning loop computes the token-by-token expansion, and the set of names being expanded is restored; ends for every variable map, cyclic ones included |
| MakefileVariables.ResolveMakefileVariables | cli/src/lib.rs:1739-1753 | The loop over lines defines the variables, to which `DefinitionsMean` gives meaning, and expands the whole text |
| MakefileVariables.TokensRenderBack | cli/src/lib.rs:1702-1735 | The tokens are a splitting of the text |
| MakefileVariables.KeptVerbatim | cli/src/lib.rs:1704-1732 | A text without a replaceable reference is unchanged: escapes, lone dollars, undefined, unclosed and re-entered references stay as they stand |
| MakefileVariables.NoVariables | cli/src/lib.rs:1724-1732 | Without variables expansion is the identity |
| MakefileMeaning.ClosedReference | cli/src/lib.rs:1709-1732 | Behind text without `$`, a reference in either pair of delimiters becomes the expanded value of its name, or stays if the name is unknown or being expanded, and the scan goes on behind it |
| MakefileMeaning.EscapedDollar | cli/src/lib.rs:1704-1708 | Behind text without `$`, `$$` stays and the scan goes on behind both |
| MakefileMeaning.LoneDollar | cli/src/lib.rs:1712-1716 | A `$` before anything else stays, and the scan goes on right behind it |
| MakefileMeaning.OpenReference | cli/src/lib.rs:1718-1722 | A reference that nothing closes ends the scan and stays with the rest of the text |
| MakefileMeaning.AssignmentReadsBack | cli/src/lib.rs:1669-1693 | Every line a writer puts down as an assignment reads back as its name, its kind (`?=`, `:=` or `=`) and its trimmed value, with white space around each part, an optional `export` in front and an optional comment behind |
| MakefileMeaning.AssignmentIsWritten | cli/src/lib.rs:1669-1693 | Conversely, every line that counts as an assignment was written that way |
| MakefileMeaning.ExportIsNoName | cli/src/lib.rs:1673-1674 | The one exception, exactly: a variable called `export` with a space behind its name is no assignment |
| MakefileMeaning.DefinitionsMean | cli/src/lib.rs:1741-1751 | A name is defined if and only if some line assigns it. It stands for the last assignment that is not `?=`, or the first one if all are `?=`; the value of `:=` is expanded with the variables of the lines before, other values are kept as written |
| MakefileMeaning.ResolvedMeans | cli/src/lib.rs:1739-1753 | Resolving expands the whole text with the map that gives each name what its deciding line gives, and no other name |
| MakefileMeaning.LineEnds | cli/src/lib.rs:1741 | A line ends at a line feed with at most one carriage return before it, and the next line starts behind it |
| MakefileMeaning.LastLine | cli/src/lib.rs:1741 | The last line needs no line feed and keeps a carriage return; nothing behind the last line feed is no line |
| MakefileVariables.AssignmentIsOneLine | cli/src/lib.rs:1669-1693 | A name and a value taken from one line contain no line end |
| MakefileVariables.ResolvedIsAligned | cli/src/lib.rs:1739-1753 | Resolving keeps the number of line ends, and every piece between them without `$` stays the same at the same index |
| MakefileVariables.LinesPairUp | cli/src/doctor_dev_ports.rs:324-326 | Walking the lines of both texts side by side drops no line without `$` and pairs each with itself |
| MakefileVariables.LinesLost | cli/src/doctor_dev_ports.rs:324-326 | The walk loses at most one line: the last one, and only if it contains `$` |
| IdentityCode.MaskInPlace | cli/src/identity.rs:76-112 | The in-place loop turns the bytes into the masked text, which the three laws of `MaskedLiterals` determine |
| IdentityCode.SkipLiteral | cli/src/identity.rs:92-104 | The inner loop finds the end of the literal, which `LiteralIsMasked` and `OpenLiteralIsMasked` give its meaning |
| MaskedLiterals.LiteralIsMasked | cli/src/identity.rs:90-110 | A literal as a writer puts it down, any bytes but its quote and the backslash by themselves and any byte behind a backslash, is blanked whole with both quotes, and the text behind it is masked on its own |
| MaskedLiterals.OpenLiteralIsMasked | cli/src/identity.rs:92-110 | A literal that nothing closes is blanked to the end of the text, a last backslash included |
| MaskedLiterals.CodeIsKept | cli/src/identity.rs:80-89 | A byte that opens no literal is kept: anything but the three quotes, and in Rust the quote of a lifetime |
| IdentityCode.BlankInPlace | cli/src/identity.rs:105-109 | Exactly the range is blanked, line ends kept |
| IdentityCode.MaskKeepsPositions | cli/src/identity.rs:76-112 | Length and line ends are unchanged; inside literals every other byte is a space, outside every byte is unchanged. What is inside a literal is said by `LiteralIsMasked` and `CodeIsKept` |
| IdentityCode.MaskIsValid | cli/src/identity.rs:111 | Masking valid UTF-8 gives valid UTF-8, so the conversion cannot fail |
| IdentityCode.OffsetsAgree | cli/src/identity.rs:114-124 | An offset at which the masked text shows an ASCII byte other than a blank has the same byte in the source, and both texts can be cut there |
| IdentityCode.MaskIsIdempotent | cli/src/identity.rs:76-112 | Masking is idempotent in both language modes |
| Utf8.CutBefore | cli/src/identity.rs:117-118 | Valid UTF-8 can be cut before every byte that is not a tail byte, into two valid parts |
| ShellCommand.QuotingRoundTrip | cli/src/dockerfile.rs:500-510 | Splitting the rendered command by the shell's quoting rules gives back the original arguments, for every list of arguments, empty ones and quotes included |
| ShellCommand.EscapedReadsBack | cli/src/dockerfile.rs:506 | Inside quotes, an escaped argument reads back as itself, whatever follows |
| ShellCommand.ValidatedOutputs | cli/src/dockerfile.rs:337-356 | Succeeds if and only if every step is valid, and then gives all outputs in order |
| ShellCommand.RenderedIsSafe | cli/src/dockerfile.rs:344-349 | The rendered command has no line feed, carriage return or zero character if and only if the validation accepts its arguments |
| ShellCommand.OutputsAreAbsolute | cli/src/dockerfile.rs:177-183 | Every collected output is an absolute path; for valid steps it is of plain characters, not the root, and without a `..` part |
| ShellCommand.PlainPathIsExact | cli/src/dockerfile.rs:137-155 | A path is plain if and only if it is neither empty nor the root, is made of letters, digits and four other characters, and has nowhere two dots as a whole part |
| MediaGrant.ParseQuery | deploy/media-grants/njs/media-grant.js:124-153 | The loop over the four parts computes the parse |
| MediaGrant.ParseQueryIsExact | deploy/media-grants/njs/media-grant.js:124-153 | Exactly one query is accepted per grant: a query parses to a grant if and only if the grant is valid and the query is what printing it gives |
| MediaGrant.LengthBoundIsRedundant | deploy/media-grants/njs/media-grant.js:14-17 | The bound on the whole query never rejects one the other checks accept |
| MediaGrant.ExpiresMeans | deploy/media-grants/njs/media-grant.js:140-142 | A text is accepted as an expiry, with this value, if and only if it is the decimal writing of a positive number of at most ten digits |
| MediaGrant.SignatureMeans | deploy/media-grants/njs/media-grant.js:143-147 | A text is accepted as a signature, with these bytes, if and only if it is the encoding of 32 bytes |
| MediaGrant.SigningInputIsInjective | deploy/media-grants/njs/media-grant.js:77-87 | Two grants for valid paths and key IDs have the same signing input only if path, expiry and key ID agree |
| MediaGrant.PathHasNoNewline | deploy/media-grants/njs/media-grant.js:81-87 | A valid path contains no line feed |
| MediaGrant.ConstantTimeEqual | deploy/media-grants/njs/media-grant.js:68-75 | The accumulating loop decides equality |
| MediaGrant.VerifyIsExact | deploy/media-grants/njs/media-grant.js:172-190 | A request is granted under a key ID until an instant if and only if method, path, clock and expiry are acceptable and a key of the ring, the current or the retiring one, has that ID and signed the query, character for character |
| MediaGrant.RejectionIsExact | deploy/media-grants/njs/media-grant.js:172-190 | Each rejection has its exact condition: the first check that fails, in the order method, path, query, expiry, unknown key, signature |
| MediaGrant.RingKeysGrant | deploy/media-grants/njs/media-grant.js:163-181 | What either key of the ring signed is granted |
| MediaGrant.MediaPathIsExact | deploy/media-grants/njs/media-grant.js:81-87 | A path is valid if and only if it has at most 512 characters, starts with a slash, has a word character behind every slash, and holds word characters and dots besides |
| Base64Url.DecodeCanonicalIsExact | deploy/media-grants/njs/media-grant.js:45-49 | A text decodes to nonempty bytes if and only if it is their encoding, and never to no bytes |
| Base64Url.SextetsRoundTrip | deploy/media-grants/njs/media-grant.js:47-48 | Decoding an encoding gives back every byte string |
| Base64Url.SextetCount | deploy/media-grants/njs/media-grant.js:11-12 | The length of an encoding; 32 bytes take 43 characters |
| Base64Url.GroupIsOneNumber | deploy/media-grants/njs/media-grant.js:47-48 | Three bytes and their four sextets are the same number of 24 bits |
| Decimal.ValueOfDigits | deploy/media-grants/njs/media-grant.js:149 | The value of the digits of a number is the number, and they have no leading zero |
| Decimal.DigitsOfValue | deploy/media-grants/njs/media-grant.js:21 | Digits without a leading zero are the digits of their value |
| WebhookSignature.WebhookSigningInput | rust/crates/baukit-core/src/webhook_signature.rs:27-42 | The loop over the fields builds the specified layout |
| WebhookSignature.DecodeRoundTrip | rust/crates/baukit-core/src/webhook_signature.rs:20-25 | A decoder gets back every timestamp, delivery ID (line ends included) and body |
| WebhookSignature.SigningInputIsInjective | rust/crates/baukit-core/src/webhook_signature.rs:22-25 | Different deliveries never have the same signing input |
| ReconcileEnv.EnvFile.Reconcile | templates/common/scripts/reconcile-env.py:23-38 | Writes the reconciled content, returns the keys that were missing, and leaves the file alone if there are none |
| ReconcileEnv.Assignments | templates/common/scripts/reconcile-env.py:14-20 | The loop over the lines keeps the first line of each key |
| ReconcileEnv.ReconcileKeepsAndCompletes | templates/common/scripts/reconcile-env.py:23-38 | The old content stays in front, the first assignment of every existing key is unchanged, afterwards exactly the keys of both files are assigned, and a second run adds nothing |
| ReconcileEnv.ReconciledAssignments | templates/common/scripts/reconcile-env.py:35-37 | The assignments of the new content are the old ones followed by exactly the missing ones, in the example's order |
| ReconcileEnv.AppendedLines | templates/common/scripts/reconcile-env.py:35-37 | For line ends LF, CR and CR LF: with the chosen separator, appending lines appends exactly these lines |
| ReconcileEnv.AssignedWellFound | templates/common/scripts/reconcile-env.py:14-20 | Keys found are pairwise different, and each line found assigns its key |
| ReconcileEnv.KeyOfIsExact | templates/common/scripts/reconcile-env.py:9-11 | The recognizer finds a key in a line if and only if the pattern matches the line with that key |
| ReconcileEnv.StaleKeysStay | templates/common/scripts/reconcile-env.py:41-49 | Reconciling changes nothing about which keys are stale |
| EnvKeys.LackingIsExact | templates/common/scripts/reconcile-env.py:27-49 | What is appended, and what the warnings name, are exactly the lines of one file that are the first to assign a key the other file does not assign, in the order of the lines |
| EnvKeys.AppendedIsExact | templates/common/scripts/reconcile-env.py:35-37 | The file keeps its bytes and gets each lacking line with a line feed behind it; one more line feed comes first if and only if the file ends in the middle of a line |
| EnvKeys.LineEnds | templates/common/scripts/reconcile-env.py:16 | A line ends at LF, at CR LF or at a CR alone, and the next one starts behind it |

## Left out

The compatibility checker:

- JSON parsing and the walk along a JSON pointer: references map to what they hold. A target of the wrong type, and documents whose shape makes Python raise a type error, are not modelled. Neither are keywords beside a `$ref`, nor the empty reference string.
- The wording of reports and their order. A report is a rule and a place. The lists grow as in the source, and which reports they hold is proved; their order, which follows dictionary order, and repetitions, such as one report for each unmatched member of a composition, are not.
- A schema comparison collects its breaks in a list of its own, which is appended to the document's when it ends; the source appends to the document's list directly.
- SchemaComparison.SchemaComparison.Compare: when an error is raised, only that it is one the walk contains, and that no report is lost, is stated; which of several errors comes first depends on dictionary order.
- Keywords the checker does not read (`not`, conditionals, discriminators). Patterns and formats are parameters. Numbers are exact reals, so rounding is not modelled.
- SchemaReports.ReportsAreExact: a pair that is reached again is reported at the first place on its way only, so the equivalence is about rules, and the places are `ReportsAreWarranted`.
- SchemaExactness.LocalBreaksAreExact: a changed `multipleOf`, pattern or format is reported whether or not it loses a value, as in the checker.
- SchemaDefaults.OmittedPropertiesReadTheSame: no default and the default null read the same, as they are the same to the checker.
- Header names are lowered in ASCII only; a success status has ASCII digits and no trailing line feed.
- DocumentRenaming.RenamingIsCompatible: path items behind a reference keep their variable names, because a shared item cannot be renamed for one path only.

Tokens:

- HTTP, asynchronous scheduling, connection failures, and the ordering of `list_tokens`. A statement is one atomic step; a transaction is begin, lock, count, insert, publish, release, and may be rejected or fail. Row locks appear only as the rows a purge skips.
- TokenLimit.ActiveLimit: about stores with a limit. The insert without a limit, offered to callers with their own policy, is not part of a run.
- SHA-256 is a function on texts, assumed injective on the secrets issued and the text presented; its constant-time comparison is equality. Random bytes are a parameter.
- Ids and secrets are never issued twice in a run, as random ones are not expected to be.
- `prepare_at`, `ApiTokenFormat::new` and `is_well_formed` are functions without a method of their own.

Import search, text machines and encodings:

- The file system is a parameter: canonical paths, and the import paths found in each file. The recognition of imports (`screen_imports`, `module_path`) is not part of this model; a search may run into a file that is unreadable or missing.
- ScreenModules.FindScreenModules: which of several unreadable files is reported first is not stated. The result is a set; the source's sorted list adds only an order.
- `identity_constant` is modelled only as far as its offsets: the masked text's offsets index the source. The rest of `identity.rs`, with its worklist over library sources, is left out.
- ShellCommand.QuotingRoundTrip: the shell is modelled as far as backslash, single quotes and blanks. A text that needs expansion or other rules reads as nothing, which the theorem excludes for rendered commands.
- Of the Dockerfile, the rest of the validation and the rendering of the template.
- Signature keys: HMAC is a function parameter of a key, and loading keys, the key ring from the environment, and the nginx handlers are left out. Only the results of the constant-time comparison are modelled, not its timing.
- Node decodes base64url leniently; the model drops spare bits and a single left-over character as Node does, and takes texts that pass the pattern test only.
- WebhookSignature.WebhookSigningInput: the timestamp is any integer, which covers the 64-bit range, and the delivery ID any byte string, which covers UTF-8.
- Reading and writing the environment file is an object with its content. The command line and its output are left out.
- `baukit doctor` presence checks, configuration, version and changelog scripts, and generated declarations: nothing in them spans several steps.
