# Verified model of the api-extension handlers

HariKube's api-extension adds `Transaction`, `Count` and `Decision` endpoints to the Kubernetes API. This project
models the logic of those endpoints in Dafny and proves what they promise:

- **Transactions.** A request lists resources to create, update and delete. The handler resolves a namespace,
  authorises every entry through a memo table, stages every entry under a storage key, and stores one record with a
  single compare-and-put. Authorisation and staging derive group, resource, scope and namespace independently; the
  model proves that they agree, that nothing is stored unless everything was authorised and staged, and that any
  number of handlers racing on one etcd, with lost replies, never lose or overwrite a record.
- **Counts.** A count asks etcd for the number of keys under a prefix. The model proves that the key layout is a
  decodable code, so that prefix counts are exact numbers of objects.
- **Decisions.** Decision requests are normalised while walking maps in arbitrary order, and the mock decision maker
  works on probabilities rounded to four places. The model proves when the order of walks matters, that normalisation
  is a fixed point, and exact bounds on what rounding does to choices and scores.

## Layout

| file | content |
|---|---|
| `GoStrings.dfy`, `Values.dfy` | the string operations and decoded YAML/JSON values the handlers work on |
| `ApiVersions.dfy` | group, version, kind; the two `apiVersion` parsers |
| `StorageKeys.dfy`, `Counting.dfy`, `FieldSelectors.dfy` | the key encoder and its decoder; the count handler |
| `RequestPaths.dfy`, `ResourceValidation.dfy` | API paths, namespace resolution, the dry-run validation call |
| `RestMapper.dfy` | looking up a kind with one retry |
| `TransactionEnv.dfy`, `Authorization.dfy`, `Staging.dfy` | requests, the authorisation pass, the staging pass |
| `Bindings.dfy`, `Outcomes.dfy` | map filling and fallible lists, used by staging |
| `EtcdStore.dfy`, `TransactionHandler.dfy`, `CommitProtocol.dfy` | the store, the create handler, interleaved handlers |
| `TransactionPlans.dfy` | what a submission asks for and when it is committed, stated without the handler's steps |
| `CountSeesStaged.dfy` | staged keys lie under count prefixes |
| `MockShares.dfy`, `MockScores.dfy`, `MockDecision.dfy` | rounded probabilities, scores over them, the mock decision maker |
| `DecisionValues.dfy`, `DecisionQuestions.dfy`, `DecisionWalks.dfy` | normalisation of decision requests, and when the order of map walks matters |

Code that works step by step in the repository is a method with loops here, proved equal to a specification function;
the properties are lemmas about that function, and the steps of every operation are also described without naming those
functions, from the inputs and the surroundings' answers (the lemmas called `...Exactly` and `...Layout`). Objects with
mutable state (the store, the map of staged resources) are classes.

## Assumptions

- The REST mapper, the access review, the body and entry decoders, the validator, the marshaller, the tokeniser and
  the backend's own selector filter are arbitrary functions.
- Agreement of the two transaction passes is proved per entry under three explicit conditions (`Staging.Faithful`): the
  mapper answers both passes alike, the entry decoder builds string-keyed metadata, and the validator's answer is in
  the namespace it was asked about or in none. `Staging.PassesAgreeExactly` shows that, given the first two, the third
  is exactly what is needed; `Staging.LateMappingEscapesReview` shows what happens without the first, and
  `RestMapper.AnsweredAlikeExactly` and `RestMapper.FreshMapsAlike` when the mapper meets it;
  `ResourceValidation.ServerAnswerStays` derives the third from an API server that answers within the path it was
  asked at.
- Key results are about well-formed identities: no slash in any segment, and no group with a key segment of its own is
  also the plural of a core resource. Groups with a dot and plurals without one always satisfy this
  (`StorageKeys.DottedGroupsAreWellFormed`). `StorageKeys.SlashInNameCollides` and
  `StorageKeys.GroupNamedLikeResourceCollides` show that both are needed. Groups in the core set share one key space by
  design, so slots are compared after core groups are dropped.
- In the commit protocol other writers may do anything to other keys but never write or delete a transaction key.
- Rounding to four places follows ECMA-262, section 21.1.3.3, over exact rationals; shares and scores are counted in
  ten-thousandths. Options come in the entry order of the criteria object.

## Findings

- Normalising a YAML map whose keys print alike, such as the number 1 and the string "1", depends on Go's map order:
  the same decision request is accepted along one walk of its maps and rejected along another
  (`DecisionWalks.CollidingOptionsUndecided` names both walks). `DecisionValues.WalkIndependentExactly`,
  `DecisionWalks.QuestionWalkIndependentExactly` and `DecisionWalks.DecodeWalkIndependentExactly` give the exact
  conditions under which the order does not matter, for a value, a question and a whole request.
- Rounding can make the mock choose an option that does not have the largest keyword score, for every total above
  10000 and for none up to it (`MockShares.RoundingIsSafeExactly`).
- Rounding can make the mock report a score above the last index exactly from five criteria on
  (`MockScores.InRangeExactly`): never for totals up to 20000 (`MockScores.ScoreInRange`), for every total from
  20000 (n-1) on (`MockScores.LargeTotalBreaksBound`), and with five criteria at 40000, from 53334 to 60000, from 66667
  on, and at no other total (`MockScores.FiveExceedExactly`).
- An option called `__proto__` gets no score, no probability and cannot be chosen: assigning its score to a property of
  a plain object is ignored (`MockDecision.AnswerChoice`, `MockDecision.AllKeptExactly`,
  `MockDecision.OnlyProtoAnswersNothing`).
- A transaction body may name a namespace with a slash when neither framework nor path gives one
  (`RequestPaths.SlashComesFromBody`); such transactions can share a storage key with others, exactly when one
  namespace continues the other past a slash (`TransactionHandler.NamespacesCollideExactly`).
- After a lost reply the record may be stored while its sender was told 500, and then no retry under that name is ever
  answered 201 (`CommitProtocol.LostReplyBlocksKey`).
- A count of a cluster-scoped kind asked for in a namespace is reviewed in that namespace and counted in the whole
  cluster; every other count is made where it was reviewed (`Counting.CountedWhereReviewedExactly`).
- Scanning a path for its namespace returns something else when the API group or version is itself called
  `namespaces`, and for updates of the cluster-scoped resource `namespaces` (`RequestPaths.ScanPrintedPath`).

## Model

| member | source | states |
|---|---|---|
| `CommitProtocol.AtMostOneWinner` | internal/apiserver/transaction.go:44-57 | in every reachable state of any number of interleaved handlers, two requests answered 201 have different keys, different namespace or name, and different resource versions |
| `CommitProtocol.WinnersRecordStands` | internal/apiserver/transaction.go:261-285 | in every reachable state the record under a winner's key is the payload its own submission planned, at the reported revision |
| `CommitProtocol.NeverOverwritten` | internal/apiserver/transaction.go:52-56 | over any stretch of any run no transaction record changes or disappears, no answer is taken back, the revision never decreases |
| `CommitProtocol.WinnersInCommitOrder` | internal/apiserver/transaction.go:284-284 | reported resource versions increase in commit order |
| `CommitProtocol.LaterWinnersAreLater` | internal/apiserver/transaction.go:44-57 | whoever wins after a state reports a revision later than that state's |
| `CommitProtocol.LosersLeaveStoreAlone` | internal/apiserver/transaction.go:261-271 | a commit leaves the store unchanged exactly when its put does not take effect; an answered commit takes effect exactly when it is answered 201 |
| `CommitProtocol.ErrorSaysNothing` | internal/apiserver/transaction.go:262-264 | the same error answers a put that was applied and one that was lost |
| `CommitProtocol.LostReplyBlocksKey` | internal/apiserver/transaction.go:53-55 | after an applied put whose reply was lost, no request for that key is ever answered 201 |
| `CommitProtocol.RetriesWinOnce` | internal/apiserver/transaction.go:44-57 | however often a named transaction is submitted, it takes effect at most once and is answered 201 at most once |
| `CommitProtocol.RecordsAreConserved` | internal/apiserver/transaction.go:44-57 | the transaction records are those at the start plus exactly one per request whose put took effect |
| `CommitProtocol.EveryRecordIsAuthorised` | internal/apiserver/transaction.go:206-271 | every record not there at the start was planned by one of the requests, and every resource key in it comes from an entry whose permission was reviewed and granted |
| `CommitProtocol.RunKeepsInv` | internal/apiserver/transaction.go:44-57 | the invariant behind these guarantees holds in every reachable state |
| `CommitProtocol.StepKeepsInv` | internal/apiserver/transaction.go:44-57 | every step (submit, prepare, commit with any link, outside writes) keeps the invariant |
| `CommitProtocol.HandlerIsPrepareAndCommit` | internal/apiserver/transaction.go:206-271 | the handler running alone is a prepare step and, unless refused, a commit step of the protocol, with its store and its answer |
| `EtcdStore.PutIfAbsentCreates` | internal/apiserver/transaction.go:52-56 | the compare on modification revision 0 puts exactly when the key is absent, binds that key alone, at a revision later than every other record's |
| `EtcdStore.Etcd.TxnPutIfAbsent` | internal/apiserver/transaction.go:52-56 | the store's state and the response of one compare-and-put |
| `TransactionHandler.CreateHandler` | internal/apiserver/transaction.go:206-318 | the store changes only by the one commit exchange of a submission whose plan succeeded; any refusal leaves it unchanged; the status answered in each case. What is planned, refused and answered is stated by `AcceptedExactly`, `PlannedFromLists` and `AnswerExactly` |
| `TransactionPlans.AcceptedExactly` | internal/apiserver/transaction.go:210-261 | end to end, in terms of the body and the surroundings' answers: committed exactly when it asks for something non-empty that is cleared and stages, 403 exactly when something is not cleared, 400 otherwise |
| `TransactionPlans.PlannedFromLists` | internal/apiserver/transaction.go:225-243 | every creation is staged under a key ending in `#create` and was reviewed and granted under the verb `create`, likewise updates and deletions, and no other keys are planned |
| `TransactionPlans.PlannedNamespaceExactly` | internal/apiserver/transaction.go:176-186 | the record's namespace is the framework's if there is one, else the path's, and always the body's if the body names one |
| `TransactionPlans.ParsesExactly` | internal/apiserver/transaction.go:163-189 | a submission parses exactly to the request and namespace it asks for, and each refusal has exactly its cause |
| `GoStrings.BlankExactly` | internal/apiserver/transaction.go:168-168 | a body is blank exactly when it holds white space only |
| `TransactionEnv.OperationsInOrder` | internal/apiserver/transaction.go:227-231 | the operations are the creations under `create`, then the updates under `update`, then the deletions under `delete`, in list order |
| `TransactionEnv.OperationsExactly` | internal/apiserver/transaction.go:520-527 | and nothing else |
| `TransactionHandler.CommitsExactlyWhen` | internal/apiserver/transaction.go:210-261 | a submission reaches the commit exactly when it parses, every entry of all three lists is authorised and stages, and some list is non-empty |
| `TransactionHandler.ForbiddenExactlyWhen` | internal/apiserver/transaction.go:220-223 | a submission is refused with 403 exactly when it parses and some entry fails authorisation |
| `TransactionHandler.EmptySpecExactlyWhen` | internal/apiserver/transaction.go:245-248 | given that everything is authorised and stages, the empty-spec answer means all three lists are empty |
| `TransactionHandler.ResubmissionSharesKey` | internal/apiserver/transaction.go:250-261 | a submission planned again goes to the same namespace, and to the same key exactly when body or framework names the transaction, or the clock generates the same name |
| `TransactionHandler.PlannedResources` | internal/apiserver/transaction.go:225-243 | the planned map holds under each entry's key what the last entry with that key stages, and no other keys |
| `TransactionHandler.PlannedKeysAreAuthorised` | internal/apiserver/transaction.go:220-243 | every resource key of a planned record comes from an entry whose permission was reviewed and granted |
| `TransactionHandler.PlannedSlotsAreReviewed` | internal/apiserver/transaction.go:220-243 | and, for well-formed entries, the slot and operation each planned key is read back as were reviewed and granted |
| `TransactionHandler.TransactionKeysEqualExactly` | internal/apiserver/transaction.go:159-161 | for all namespaces and names, keys are equal exactly when both are equal, or one namespace continues the other past a slash and the names make up for it |
| `TransactionHandler.NamespacesCollideExactly` | internal/apiserver/transaction.go:159-161 | two namespaces have transactions with one key exactly when one continues the other past a slash |
| `TransactionHandler.TransactionKeyInjective` | internal/apiserver/transaction.go:159-161 | so transactions in slash-free namespaces share a key exactly when namespace and name are equal |
| `TransactionHandler.SlashedNamespaceCollides` | internal/apiserver/transaction.go:159-161 | a slash in the namespace makes different transactions share a key |
| `TransactionHandler.Commit` | internal/apiserver/transaction.go:44-57 | one exchange with the store, under every fate of the call |
| `TransactionHandler.AnswerExactly` | internal/apiserver/transaction.go:261-285 | 201 exactly when the commit is delivered and `/harikube/transaction/<namespace>/<name>` was free, naming namespace, name and revision of the put; else 500 |
| `TransactionHandler.StageBatches` | internal/apiserver/transaction.go:225-243 | the staging loops fill the map with the fold of all entries in create, update, delete order, or stop at the first failing entry |
| `TransactionHandler.ParseTransactionAndNamespace` | internal/apiserver/transaction.go:163-189 | parsing and namespace resolution, with the reason of every refusal |
| `Authorization.AuthorizeAll` | internal/apiserver/transaction.go:510-609 | the memoised pass has the verdict of the unmemoised one, and issues exactly its reviews, each once, in order of first occurrence up to the first failure |
| `Authorization.AuthorizeEntry` | internal/apiserver/transaction.go:531-604 | one entry's verdict and memo table; while all permissions asked for were granted, the branch that refuses from the memo table is dead |
| `Authorization.AskedSoFarAllowed` | internal/apiserver/transaction.go:581-587 | as long as nothing has failed, every permission in the memo table was granted |
| `Authorization.PassMeansAllAllowed` | internal/apiserver/transaction.go:529-608 | the pass accepts exactly when every entry decodes and every permission an entry needs is granted |
| `Authorization.ClearedExactly` | internal/apiserver/transaction.go:531-604 | an entry passes exactly when it decodes and, if it names a mapped kind, the review of this verb on the kind's group and resource in its namespace allows it |
| `Authorization.AuthorisedExactly` | internal/apiserver/transaction.go:520-608 | a request passes exactly when each list is cleared for its own verb |
| `Authorization.RawNamespaceExactly` | internal/apiserver/transaction.go:555-572 | the namespace asked in is the metadata's, in either kind of map, else the request's |
| `Authorization.FirstOccurrencesIsSet` | internal/apiserver/transaction.go:518-518 | the issued reviews are the needed permissions, without repetition |
| `Authorization.FirstOccurrencesInOrder` | internal/apiserver/transaction.go:574-604 | and stand in the order in which they were first needed |
| `Authorization.AcceptedReviews` | internal/apiserver/transaction.go:574-604 | an accepted request had one review per distinct permission, all granted, covering every entry that needs one |
| `Staging.SkippedIsRejected` | internal/apiserver/transaction.go:536-553 | the entries the first pass skips are exactly those the second rejects for want of version, kind or mapping |
| `Staging.PassesAgreeExactly` | internal/apiserver/transaction.go:328-393 | the permission exercised by a staged key is the one the first pass asked for exactly when the validator's answer stayed in its namespace |
| `Staging.StagedKeysAreAuthorised` | internal/apiserver/transaction.go:529-605 | when both passes succeed, each entry's key exercises a permission that was asked for on its behalf, reviewed and granted, and the map holds no other keys |
| `Staging.DecodedSlotsAreReviewed` | internal/apiserver/transaction.go:378-393 | the slot and operation a staged key decodes to are those of a reviewed and granted permission |
| `Staging.LateMappingEscapesReview` | internal/apiserver/transaction.go:550-553 | an entry mapped only in the second pass is staged without any review |
| `Outcomes.CollectFirstError` | internal/apiserver/transaction.go:225-243 | when an entry fails, the error reported is that of the first failing one, whatever the later ones do |
| `Staging.StageEntry` | internal/apiserver/transaction.go:322-396 | one entry is staged into the map, or the map is untouched and the error says why |
| `Staging.StagesValidatedObject` | internal/apiserver/transaction.go:353-393 | name, namespace and text staged are those of the validated object, or of the entry's own object for a deletion |
| `Staging.StagesExactly` | internal/apiserver/transaction.go:322-396 | an entry stages as an identity, operation and text exactly when it decodes, names a mapped kind and ends up as a named object that can be marshalled |
| `Staging.SentExactly` | internal/apiserver/transaction.go:353-361 | to which namespace an entry is sent, and what is changed in it before |
| `Values.AccessorsRead` | internal/apiserver/transaction.go:353-383 | name and namespace are the fields of string-keyed metadata |
| `Values.SetNamespaceSets` | internal/apiserver/transaction.go:360-360 | setting the namespace changes that field and nothing else |
| `Staging.NoOperationLost` | internal/apiserver/transaction.go:225-243 | for well-formed identities the map has one key per entry exactly when no two entries name the same slot with the same operation |
| `Staging.EveryOperationRecoverable` | internal/apiserver/transaction.go:383-393 | and then every entry's slot, operation and text can be read back from the map |
| `Bindings.LastWriterWins` | internal/apiserver/transaction.go:393-393 | a key is bound to the last value written under it |
| `Bindings.SizeCountsDistinctKeys` | internal/apiserver/transaction.go:393-393 | a map filled entry by entry has one key per entry exactly when all keys differ |
| `RestMapper.Mapper.GetResource` | internal/apiserver/helper.go:40-49 | a lookup answers from the cache, or after a miss from the reset one, and leaves that cache behind |
| `RestMapper.AnsweredAlikeExactly` | internal/apiserver/helper.go:40-49 | repeated lookups of a kind are answered alike in every series exactly when nothing in the cache is out of date |
| `RestMapper.PassesAnsweredAlike` | internal/apiserver/transaction.go:550-550 | with such a cache the lookups of both transaction passes agree, whatever is looked up in between |
| `RestMapper.FreshMapsAlike` | internal/apiserver/transaction.go:328-350 | so every entry meets the staging pass's assumption about the mapper |
| `RestMapper.StaleAnswerChanges` | internal/apiserver/helper.go:42-46 | a kind cached out of date is answered differently before and after a miss on another kind |
| `StorageKeys.EtcdKey` | internal/apiserver/helper.go:51-66 | the prefix built by successive appends is the slash-closed list of the segments that are present |
| `StorageKeys.PrefixLayout` | internal/apiserver/helper.go:51-66 | what a prefix looks like, segment by segment |
| `StorageKeys.KeyLayout` | internal/apiserver/transaction.go:378-393 | what a staged key looks like |
| `StorageKeys.CoreResourceSet` | internal/apiserver/count.go:33-36 | the core set holds exactly the configured groups |
| `StorageKeys.DecodeSlotExact` | internal/apiserver/helper.go:56-63 | a decoder returns a slot exactly when the slot is well formed and has the given key |
| `StorageKeys.StagedRoundTrip` | internal/apiserver/transaction.go:378-393 | a staged key decodes to its storage group, resource, namespace, name and operation, even when the name contains `#` |
| `StorageKeys.StagedKeyInjective` | internal/apiserver/transaction.go:378-393 | staged keys are equal exactly when slot and operation are |
| `StorageKeys.DottedGroupsAreWellFormed` | internal/apiserver/helper.go:51-66 | identities without slashes, with dots in the groups and none in the plurals, are well formed |
| `StorageKeys.SlashInNameCollides` | internal/apiserver/transaction.go:383-393 | for every kind, a slash in a name makes two different slots share a key |
| `StorageKeys.GroupNamedLikeResourceCollides` | internal/apiserver/helper.go:56-63 | a non-core group named like a core plural makes two different slots share a key |
| `StorageKeys.PrefixSelectsExactly` | internal/apiserver/count.go:133-138 | a well-formed key lies under a count prefix exactly when it belongs to that storage group, resource and namespace |
| `StorageKeys.SlashedPrefix` | internal/apiserver/helper.go:56-63 | string prefixes of slash-closed segments are exactly segment-list prefixes |
| `Counting.CountIsExact` | internal/apiserver/count.go:164-175 | over any store of well-formed objects, the keys under a count prefix are those of the chosen objects, one each |
| `Counting.AllNamespacesIsSum` | internal/apiserver/count.go:134-138 | counting in all namespaces is the sum of the per-namespace counts plus the objects without a namespace |
| `Counting.ListCount` | internal/apiserver/count.go:47-181 | the handler's branches give the specified response for every query, review, mapping and backend behaviour; `AnsweredExactly` and `CountedExactly` say which |
| `Counting.AnsweredExactly` | internal/apiserver/count.go:73-185 | every status by its cause: counted exactly when the last assignments name a kind that is mapped, listing is allowed and the backend answers; 400, 403, 404 and 500 each exactly for their causes |
| `Counting.CountedExactly` | internal/apiserver/count.go:128-175 | what a counted request reports: its kind, its namespace and the number of keys under the mapped kind's prefix that its selectors select |
| `Counting.AnsweredCountIsObjectCount` | internal/apiserver/count.go:47-181 | a request is answered with a count exactly when its query resolves and the backend answers; without further selectors the count reported is the number of objects of the mapping's storage group and resource in the namespace it is counted in |
| `Counting.CountedWhereReviewedExactly` | internal/apiserver/count.go:115-136 | a counted request was allowed in the request's namespace, and is counted there exactly unless its kind is cluster-scoped and the namespace is not empty |
| `CountSeesStaged.StagedKeyUnderCountPrefix` | internal/apiserver/transaction.go:337-393 | for an `apiVersion` both handlers read alike, a staged key lies under the count prefix of its kind and final namespace exactly when mapped and requested group share a key space |
| `ApiVersions.ParsersAgree` | internal/apiserver/count.go:83-98 | the two parsers differ exactly on non-empty bare strings that do not look like a version |
| `ApiVersions.ParsersReadExactly` | internal/apiserver/count.go:83-98 | which group, version and kind each handler reads, by the string itself: around the slash, a bare version, or a bare group |
| `ApiVersions.GroupVersionRoundTrip` | internal/apiserver/transaction.go:337-343 | a printed group and version is read back by both handlers |
| `FieldSelectors.SplitFieldSelector` | internal/apiserver/count.go:50-72 | the loop computes the selection its terms describe |
| `FieldSelectors.ResidualIsJoin` | internal/apiserver/count.go:65-71 | the residual is the comma-join of the other trimmed terms in order, leading blanks dropped |
| `FieldSelectors.LastAssignmentWins` | internal/apiserver/count.go:57-65 | version and kind are what the last term assigning them says |
| `FieldSelectors.UnassignedIsKept` | internal/apiserver/count.go:57-65 | without such a term they are unchanged |
| `FieldSelectors.SelectionExactly` | internal/apiserver/count.go:57-65 | version and kind read from a query are exactly what its last assignments give, by the text of its terms |
| `GoStrings.TrimExactly` | internal/apiserver/count.go:56-56 | trimming takes matching characters off both ends and no others until none is left there |
| `GoStrings.CutAfterExactly` | internal/apiserver/count.go:59-59 | the value is what follows the first separator |
| `FieldSelectors.PrintParse` | internal/apiserver/count.go:50-72 | printing what was extracted and parsing it again gives the same triple, for every query |
| `RequestPaths.TransactionRequestNamespace` | internal/apiserver/transaction.go:148-157 | the scan loop finds the segment after the first qualifying `namespaces` |
| `RequestPaths.NamespaceInFirst` | internal/apiserver/transaction.go:150-154 | the first qualifying position decides |
| `RequestPaths.ResourceApiPath` | internal/apiserver/transaction.go:484-508 | the path built by appends is the printed list of its segments, or the error that applies |
| `RequestPaths.ApiPathExactly` | internal/apiserver/transaction.go:484-508 | what a path looks like, and exactly when there is none |
| `RequestPaths.ScanPrintedPath` | internal/apiserver/transaction.go:148-157 | what scanning the printed path of any resource returns, in every case |
| `RequestPaths.NamespaceRoundTrip` | internal/apiserver/transaction.go:484-508 | scanning the printed path of a namespaced resource returns its namespace exactly when group and version do not shadow it |
| `RequestPaths.SlashComesFromBody` | internal/apiserver/transaction.go:148-186 | given a slash-free handler namespace, the resolved namespace has a slash exactly when neither handler nor path gives one and the body's has a slash; and then it is the body's |
| `RequestPaths.ResolveExactly` | internal/apiserver/transaction.go:176-186 | the framework's namespace, else the path's, is resolved to itself exactly when the body repeats it or names none; with neither the body's is taken; refused exactly on contradiction |
| `RequestPaths.ResolveTransactionNamespace` | internal/apiserver/transaction.go:177-186 | the transaction handler resolves namespaces by that rule |
| `RequestPaths.ResolveNamespaceAndName` | internal/apiserver/decision.go:114-136 | the decision handler resolves namespaces by the same rule, and names in order of preference |
| `RequestPaths.PostedPathResolves` | internal/apiserver/decision.go:114-125 | a request posted to the path of its namespace is accepted exactly when the body names that namespace or none |
| `ResourceValidation.ValidateAndDefault` | internal/apiserver/transaction.go:398-429 | the dry-run call: pass through without a client, invalid without a path or an answer, else the server's object |
| `ResourceValidation.ValidatedExactly` | internal/apiserver/transaction.go:403-427 | an update is put to the object's path, anything else posted to its resource's, and the server's answer taken |
| `ResourceValidation.ServerKeepsNamespace` | internal/apiserver/transaction.go:403-421 | a server that answers within the path it was asked at keeps every resource in the namespace it was sent to |
| `ResourceValidation.ServerAnswerStays` | internal/apiserver/transaction.go:363-376 | so entries validated by such a server meet the staging pass's assumption |
| `ResourceValidation.NoClientKeepsNamespace` | internal/apiserver/transaction.go:399-401 | without a client entries keep their namespace |
| `DecisionValues.NormalizeValue` | internal/apiserver/decision.go:293-316 | the recursive normaliser arrives at what some walk of every map, assigning entries in its order, arrives at |
| `DecisionValues.WalkedExactly` | internal/apiserver/decision.go:293-316 | the results of all walks are exactly the normal forms: string-keyed maps in which every printed name is won by a key that prints it |
| `DecisionValues.AnyWinnersCanWin` | internal/apiserver/decision.go:297-299 | however one winner is chosen for every printed name, one walk of the map makes all of them win |
| `DecisionValues.ResultIsNormal` | internal/apiserver/decision.go:293-316 | no result holds a generic-keyed map at any depth |
| `DecisionValues.NormalIsFixed` | internal/apiserver/decision.go:293-316 | a normal value normalises to itself and nothing else |
| `DecisionValues.Idempotent` | internal/apiserver/decision.go:293-316 | normalising twice is normalising once, whatever the walks |
| `DecisionValues.SizeKeptExactly` | internal/apiserver/decision.go:296-300 | a map keeps its size exactly when no two of its keys print alike |
| `DecisionValues.ScalarKeysKeepSize` | internal/apiserver/decision.go:296-300 | a map with integer, boolean and nil keys keeps its size |
| `Values.DigitsExactly` | internal/apiserver/decision.go:298-298 | a number prints as the one decimal numeral without superfluous zeros that has its value |
| `Values.IntegerReadsBack` | internal/apiserver/decision.go:298-298 | an integer key prints as a signed numeral that reads back to it |
| `Values.ScalarsPrintApart` | internal/apiserver/decision.go:298-298 | integers, booleans and nil never print alike |
| `Values.PrintedTexts` | internal/apiserver/decision.go:298-298 | strings print as they are, booleans as `true` and `false`, nil as `<nil>` |
| `DecisionValues.WalkIndependentExactly` | internal/apiserver/decision.go:296-300 | the result is independent of map order exactly when keys that print alike carry values with the same normal form, at every depth |
| `DecisionQuestions.NormalizeQuestion` | internal/apiserver/decision.go:245-291 | the result is one the question's normalised criteria allow |
| `DecisionQuestions.ValidExactlyWhen` | internal/apiserver/decision.go:245-291 | which questions are accepted, by type |
| `DecisionQuestions.RefusedExactly` | internal/apiserver/decision.go:245-291 | each refusal of a question by its cause |
| `GoStrings.LowerExactly` | internal/apiserver/decision.go:246-246 | what is read as an ASCII letter of a question's type |
| `DecisionQuestions.AcceptedSaysWhatWasAsked` | internal/apiserver/decision.go:246-269 | an accepted question has the given type and instructions, and a choice exactly the given options with texts given under their names |
| `DecisionQuestions.AcceptedIsWellFormed` | internal/apiserver/decision.go:255-291 | every accepted question is well formed for its type |
| `DecisionQuestions.ReencodedIsFixed` | internal/apiserver/decision.go:245-291 | a well-formed question, re-encoded in either kind of map, normalises to itself and nothing else |
| `DecisionQuestions.AcceptedIsFixed` | internal/apiserver/decision.go:245-291 | normalisation is a fixed point for every accepted question |
| `DecisionQuestions.ScoreKeepsOrder` | internal/apiserver/decision.go:270-283 | score criteria keep number and order |
| `DecisionQuestions.DecodeDecisionRequest` | internal/apiserver/decision.go:202-243 | decoding arrives at what some walk of the questions, and of the maps in them and in the state, arrives at |
| `DecisionQuestions.DecodedExactly` | internal/apiserver/decision.go:218-242 | the results of all walks are exactly the requests with every question accepted and the errors of offending questions |
| `DecisionQuestions.DecodedNames` | internal/apiserver/decision.go:222-229 | name and namespace are the given ones without surrounding blanks |
| `DecisionWalks.SettledOutcome` | internal/apiserver/decision.go:255-291 | a settled question has exactly one outcome, whatever the walk over its criteria |
| `DecisionWalks.UnsettledHasTwo` | internal/apiserver/decision.go:256-269 | any other question is accepted under one walk and, under another, rejected or accepted with other texts |
| `DecisionWalks.QuestionWalkIndependentExactly` | internal/apiserver/decision.go:245-291 | the outcome of a question is independent of map order exactly when it is settled: unless it is a choice over a generic-keyed map in which no name has bad values only and the values do not concur |
| `DecisionWalks.DecodeWalkIndependentExactly` | internal/apiserver/decision.go:218-242 | a whole request decodes the same way for every map order exactly when it has no question, or a hopeless one, or a walk-independent state and settled questions only |
| `DecisionWalks.DecodesExactlyWhen` | internal/apiserver/decision.go:231-240 | with settled questions, for every walk, decoding succeeds exactly when there are questions, all keys are non-blank and all questions are valid; the result has the same keys and well-formed questions |
| `DecisionWalks.ApartRequestIsSettled` | internal/apiserver/decision.go:218-242 | a request in which no two keys of a map print alike always decodes the same way |
| `DecisionWalks.CollidingOptionsUndecided` | internal/apiserver/decision.go:256-269 | with two option keys that print alike, the walk with the text last accepts the question and the other walk rejects it |
| `DecisionWalks.NumberAndStringCollide` | internal/apiserver/decision.go:298-298 | such keys exist |
| `MockShares.ShareIsNearest` | config/config/decision-maker.yaml:83-83 | a share is the nearest ten-thousandth, the larger of two |
| `MockShares.SharesNearlySumToOne` | config/config/decision-maker.yaml:80-84 | the rounded probabilities of n options sum to one up to n half ten-thousandths |
| `MockDecision.ProbabilityMap` | config/config/decision-maker.yaml:80-84 | the map has exactly the options as keys, each with its share |
| `MockShares.StableSortHead` | config/config/decision-maker.yaml:102-102 | the head of a stable descending sort is the first largest share |
| `MockShares.ChoiceIsFirstRawMax` | config/config/decision-maker.yaml:94-104 | for totals of at most 10000 the first largest share and the first largest raw score are the same option |
| `MockShares.ChoiceIsNearMax` | config/config/decision-maker.yaml:94-104 | for any total the chosen raw score is less than total/10000 below every other |
| `MockShares.RoundingIsSafeExactly` | config/config/decision-maker.yaml:94-104 | rounding never makes the choice differ from the first largest score exactly for totals of at most 10000 |
| `MockShares.MisleadingScores` | config/config/decision-maker.yaml:94-104 | for every larger total there are positive scores with that total for which it does |
| `MockDecision.AnswerChoice` | config/config/decision-maker.yaml:94-104 | the answer to a choice question: probabilities of the options not called `__proto__`, which are all options exactly when none is, and a first largest option among them |
| `MockDecision.AllKeptExactly` | config/config/decision-maker.yaml:96-101 | the scored options are exactly the given ones, in order, exactly when none is called `__proto__` |
| `MockDecision.OnlyProtoAnswersNothing` | config/config/decision-maker.yaml:97-103 | when that is the only option, none is left to choose |
| `MockScores.ScoreNearMean` | config/config/decision-maker.yaml:115-117 | rounding moves the score of n criteria by at most n(n-1)/4 ten-thousandths from the exact weighted mean |
| `MockScores.ScoreInRange` | config/config/decision-maker.yaml:106-119 | with weights of at least one and a total of at most 20000 the score lies between 0 and n-1 |
| `MockScores.ScoreBoundIsTight` | config/config/decision-maker.yaml:106-119 | positive weights of a total of at most 20000 reach the upper bound exactly for one criterion and for even numbers of criteria up to 20000 |
| `MockScores.ZeroWeightBreaksBound` | config/config/decision-maker.yaml:109-109 | a zero weight breaks it at the same total |
| `MockScores.InRangeExactly` | config/config/decision-maker.yaml:106-119 | the score of n criteria is in range for all positive weights exactly when n is at most 4 |
| `MockScores.FiveExceedExactly` | config/config/decision-maker.yaml:106-119 | the exact totals at which five positive weights can score above the last index |
| `MockScores.LargeTotalBreaksBound` | config/config/decision-maker.yaml:115-117 | from five criteria on, some positive weights do at every total of at least 20000 (n-1) |
| `MockDecision.KeywordScore` | config/config/decision-maker.yaml:69-78 | the number of positions whose candidate is a token |
| `MockDecision.CountInExtremes` | config/config/decision-maker.yaml:69-78 | none exactly when no candidate is a token, all exactly when all are |
| `MockDecision.CountInAdds` | config/config/decision-maker.yaml:72-76 | scores add up over concatenation |
| `MockDecision.CountInGrows` | config/config/decision-maker.yaml:73-73 | more tokens never lower a score |
| `MockDecision.OptionScoreExactly` | config/config/decision-maker.yaml:98-98 | an option scores one plus the words of its name and description in the state; more than one exactly when it matches |
| `MockDecision.LoneMatchIsFirst` | config/config/decision-maker.yaml:96-102 | an option that alone matches the state has the first largest score |
| `MockDecision.CriterionWeightExactly` | config/config/decision-maker.yaml:108-114 | a criterion weighs one, plus its words in the state, plus its position from one if mentioned |
| `MockDecision.AnswerScore` | config/config/decision-maker.yaml:106-119 | the answer to a score question: distribution, expected index, and its range for up to four criteria or a total of at most 20000 |

## Left out

- HTTP serving, TLS, the unix socket, start-up wiring, content negotiation, table rendering and timestamps.
- The query endpoint, one authorised put without further logic.
- How the REST mapper discovers kinds: its cache and the server's offer are finite tables, and the offer does not change while one request is handled.
- Encoding to YAML, JSON and base64: entries and payloads are abstract texts and records, and encoding a record for the commit does not fail.
- What HariKube does with a stored transaction record later; no claim is made about applying it.
- Failures while writing a response after the commit.
- Filtering by label and field selectors, which the backend does; counts with selectors are only what the backend lets through.
- Tokenisation and text search of the mock, its `noul` branch and the real model provider.
- LargeTotalBreaksBound: for six or more criteria, which totals between 20000 and 20000 (n-1) can leave the range is not stated; both ends are, and for five criteria every total.
- The object of answers, in which an answer to a question called `__proto__` would be lost like such an option's score.
- Floating point: shares and scores are exact rationals, where the sidecar divides doubles.
- Lower-casing of letters outside ASCII whose lower case is not an ASCII letter; no accepted question type contains one.
- DecodeDecisionRequest: which of several offending questions a failure names depends on map order and is left open.
- StagedKeyUnderCountPrefix: bare `apiVersion` strings that look like neither a version nor `group/version` are excluded, because the two handlers read them differently.
