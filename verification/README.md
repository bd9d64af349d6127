# Startrail: verified models of the contracts' companion code

This project models, in Dafny 4.11, the TypeScript and JavaScript that prepares, signs,
deploys and indexes Startrail transactions, and proves what that code is relied on for.
`dafny verify dfyconfig.toml` checks everything.

Six components are modelled.

* **Merkle trees for bulk batches** (`Merkle.dfy`, `MerkleTree.dfy`, on `Ordering.dfy`). The
  tree object with its loops, and the four laws of its root: completeness, soundness, binding,
  canonicity. Layers are shown to be a binary tree in disguise; the laws follow by induction on
  that tree, whatever the width and the odd-element promotions. keccak256 is a function
  parameter. Collision-freeness is asked only of the byte strings that were hashed.
* **The SRR index** (`SrrStore.dfy`, `SrrHandlers.dfy`, `SrrHistory.dfy`). Handlers load copies
  of entities, change them, call each other, and save over the stored entity. Each handler is
  proved equal to one atomic step; runs of steps are proved equal to what the event history
  says about each SRR, read off the history directly. Indexing stops at the first event whose
  handler aborts.
* **Feature registry upgrades** (`FeatureTable.dfy`, `FeatureRegistry.dfy`). The selector table
  of the diamond registry (EIP-2535, section "Adding/Replacing/Removing Functions"), the three
  cuts of an upgrade, every table in between, and whole deployment histories.
* **Meta transaction requests** (`TypeLists.dfy`, `Records.dfy`, `TypedData.dfy`,
  `SignedEqualsSubmitted.dfy`, `MetaTxBuilder.dfy`, `SubmissionExamples.dfy`). What is signed and
  what is submitted are computed on different paths; the contract's reassembly of the submission
  equals the signed encoding exactly for the requests described there, and concrete requests on
  either side of the line are given under concrete encoders.
* **Packed encodings and order** (`MultiSend.dfy`, `Nonces.dfy`, `Sign.dfy`). The MultiSend byte
  format against the contract's own loop, the two-dimensional nonce and its replay protection,
  and the order of joined signatures against the contract's signature check.
* **Owner lists** (`OwnerList.dfy`, `LicensedUsers.dfy`, `LumRemoveOwner.dfy`). The sentinel list
  the contract keeps in a mapping, the helper that removes an owner, and the owner index
  rebuilt from events.

Where the code does not meet the expected property, the exact condition is proved.

* `setupOwners` tests an owner for a successor, which the owner just before it does not have
  yet. A list naming one owner twice in a row is accepted, and adding a single owner's own
  address goes the same way. More than 255 owners are accepted too, though their count wraps
  and they cannot be read back. `OwnerList.SetupMeaning` says what every list becomes,
  `OwnerList.AcceptedIsWellFormedIff` and `LicensedUsers.IndexMirrorsChainIff` give the condition,
  `LicensedUsers.IndexTracksChain` what the index then holds for good, and
  `OwnerList.AdjacentRepeatSlipsThrough`, `LumRemoveOwner.LastOwnerIsRemoved` and
  `LicensedUsers.CarelessRunDiverges` concrete cases.
* `addDestinationField` recognises the calldata slot by the name `data` in third place.
  `TypeLists.DestinationCommutesIff` says when that is right.
* A request value named `from` or `nonce` replaces the real one in the signed message but not in
  the submission. A key `_destination` stays in the submitted arguments though `destination` is
  dropped from the signed ones. BigNumbers are turned into decimal text for the signed calldata
  but not for the submitted one, which makes a difference where the parameter takes no numbers.
  `SignedEqualsSubmitted.SignedEqualsSubmittedIff` says exactly when the two sides agree,
  `SignedEqualsSubmitted.AgreesExactlyWhenWellPut` says it in terms of the request alone, and
  `SubmissionExamples` has a request for each of the three.
* A registered type string has a trailing comma when there is nothing after the generic
  members (`TypeLists.RegisteredTypeIsEncodeTypeIff`).

Encoders, hashes, signing and signature recovery are function parameters. What is asked of them
is written out in `Bytes.CollisionFree`, `TypedData.Lawful`, `TypedData.Abi` and
`Sign.Recovers`. `SubmissionExamples` gives encoders for which `Lawful` and `Abi` hold.

## Model

| member | source | states |
|---|---|---|
| `Merkle.ElementsAreTheSortedSet` | test/helpers/merkletree-oz-helper.js:13-16 | sorting and dropping adjacent repeats lists every input value once, in strictly ascending byte order |
| `Merkle.CanonicalElements` | test/helpers/merkletree-oz-helper.js:118-122 | two inputs give the same element list exactly when they hold the same values, in any order and multiplicity |
| `Ordering.LexLessMeaning` | test/helpers/merkletree-oz-helper.js:14 | buffers compare at their first difference, and a prefix comes first |
| `Merkle.SortAndConcatAscends` | test/helpers/merkletree-oz-helper.js:132-134 | the lesser of two values comes first, in whatever order they are given |
| `Merkle.SortAndConcatInjective` | test/helpers/merkletree-oz-helper.js:132-134 | equally long values can be read back from a sorted pair up to swapping |
| `Merkle.NextLayerAt` | test/helpers/merkletree-oz-helper.js:38-58 | position i of the next layer is the hash of the pair 2i, 2i+1, or the lone last element itself |
| `Merkle.Completeness` | test/helpers/merkletree-oz-helper.js:71-98 | the sibling list of any position folds from that element to the root |
| `Merkle.CheckedCompleteness` | contracts/bulk/BulkV6.sol:366-369 | for every 32-byte element the contract's check, which compares the two words of a pair as numbers, takes the proof from the element to the root |
| `Merkle.ProofIsLogarithmic` | test/helpers/merkletree-oz-helper.js:71-82 | a proof over n elements has at most e entries whenever n <= 2^e |
| `Merkle.TreeMeaning` | test/helpers/merkletree-oz-helper.js:22-47 | the layered construction computes the digest of a binary tree whose leaves are exactly the elements |
| `Merkle.DigestBindsLeaves` | test/helpers/merkletree-oz-helper.js:49-54 | absent collisions, trees of any two shapes with equal digests have equal leaf sets |
| `Merkle.RootDeterminesElementSet` | test/helpers/merkletree-oz-helper.js:4-58 | absent collisions among the strings hashed, two inputs (empty ones included) have equal roots if and only if they hold the same values |
| `Merkle.Soundness` | contracts/bulk/BulkV6.sol:366-369 | absent collisions, a proof that passes the contract's check from a 32-byte value to the root shows that the value was in the input |
| `MerkleTrees.MerkleTree.constructor` | test/helpers/merkletree-oz-helper.js:4-20 | the object holds the canonical elements and all their layers, and its root is the root of the input |
| `MerkleTrees.MerkleTree.GetLayers` | test/helpers/merkletree-oz-helper.js:22-36 | the loop ends and yields all layers up to the single root, with one layer holding an empty value for no elements |
| `MerkleTrees.MerkleTree.GetNextLayer` | test/helpers/merkletree-oz-helper.js:38-47 | the index loop pairs neighbours and promotes a lone last element |
| `MerkleTrees.MerkleTree.BufIndexOf` | test/helpers/merkletree-oz-helper.js:100-116 | finds the position of a value, hashed first unless it has 32 bytes, or -1 when it is no element |
| `MerkleTrees.MerkleTree.GetProof` | test/helpers/merkletree-oz-helper.js:64-82 | a proof exists exactly for the elements, a value of another length standing for its hash; it folds to the root of this tree, passes the contract's check against it, and is of logarithmic length |
| `SrrStore.PreimageInjective` | subgraph/src/lib/srr-handlers.ts:299-303 | a fixed-length SRR id followed by a decimal time determines both |
| `SrrStore.EntityIdInjective` | subgraph/src/lib/utils.ts:102-112 | absent collisions, tokens of different number or address have different ids |
| `SrrStore.DigestMeaning` | subgraph/src/lib/srr-handlers.ts:316-325 | a hash of 64 hex digits is stored with prefix and in lower case, one of another length as it is |
| `SrrStore.HexNumberMeaning` | subgraph/src/lib/srr-handlers.ts:531-539 | the log index is written in hex without leading zeros |
| `SrrHandlers.Subgraph.HandleTransfer` | subgraph/src/lib/srr-handlers.ts:54-95 | saving, calling the provenance handler on a second copy and saving the first copy again equals one atomic step on all tables; a non-mint transfer of an unknown SRR has no creation date to save, aborts and changes nothing |
| `SrrHandlers.Subgraph.HandleProvenanceInternal` | subgraph/src/lib/srr-handlers.ts:274-346 | an unknown SRR changes nothing; a known one moves to the new owner and gets a provenance unless its id is taken |
| `SrrHandlers.Subgraph.CheckAndClearCommitOnTransfer` | subgraph/src/lib/srr-handlers.ts:591-605 | clears an existing commit record and hands back the SRR copy without commitment |
| `SrrHandlers.Subgraph.HandleCommitment` | subgraph/src/lib/srr-handlers.ts:348-389 | one atomic step: SRR and commit record get the commitment, earlier custom history and sender stay when none is given |
| `SrrHandlers.Subgraph.HandleCommitmentCancelled` | subgraph/src/lib/srr-handlers.ts:549-583 | one atomic step: the SRR loses its commitment even when there is no commit record to cancel |
| `SrrHandlers.Subgraph.SaveCreateSrrInternal` | subgraph/src/lib/srr-handlers.ts:501-547 | the given SRR copy is saved with the creation details, other SRRs untouched, and its metadata recorded under the hash of transaction, log index and digest |
| `SrrHandlers.Subgraph.HandleHistory` | subgraph/src/lib/srr-handlers.ts:230-260 | the nested loops write the pairs in order, later ones over earlier ones of the same id, and nothing else |
| `SrrHandlers.Subgraph.HandleCreateSrr` | subgraph/src/srr-mapping.ts:87-144 | one atomic step; for an unknown SRR the collection form drops the event and the registry form aborts |
| `SrrHandlers.Subgraph.HandleUpdateMetadata` | subgraph/src/lib/srr-handlers.ts:474-493 | one atomic step: the SRR has the new digest and the metadata history another record |
| `SrrHandlers.Subgraph.HandleTransferFromMigration` | subgraph/src/lib/srr-migration-handlers.ts:49-79 | one atomic step, creating the SRR when unknown and leaving no provenance |
| `SrrHandlers.Subgraph.HandleCreateSrrFromMigration` | subgraph/src/lib/srr-migration-handlers.ts:81-111 | one atomic step, creating the SRR without an owner when unknown and recording its metadata |
| `SrrHandlers.Subgraph.HandleProvenanceDateFix` | subgraph/src/lib/srr-migration-handlers.ts:242-259 | redates the provenance stored for time 66000 of the SRR, if any |
| `SrrHandlers.Subgraph.HandleAll` | subgraph/src/srr-mapping.ts:58-144 | indexing any list of live and migration events is a run of the atomic steps up to the first event that aborts, and aborts nowhere else |
| `SrrHistory.IndexReflectsHistory` | subgraph/src/lib/srr-handlers.ts:54-95 | after any history an SRR is stored iff some event created it, its owner is the recipient of its last transfer, provenance or migrated transfer, its commitment the last one still standing, and its commit record agrees and names the last action |
| `SrrHistory.CommitRecordReflectsHistory` | subgraph/src/lib/srr-handlers.ts:366-389 | a commit record names the custom history and the sender given last by a commitment, or a cancellation for the sender, however many events came since, and carries the times of the first commitment and of the last commitment, cancellation or move |
| `SrrHistory.DigestReflectsHistory` | subgraph/src/lib/srr-handlers.ts:474-524 | an SRR carries the metadata digest last given to it by a creation or update |
| `SrrHistory.EventKinds` | subgraph/src/lib/srr-handlers.ts:54-95 | which events move, create, trace and describe, spelled out by kind and by the twenty zero bytes of a mint's sender |
| `SrrHistory.OriginReflectsHistory` | subgraph/src/lib/srr-handlers.ts:54-75 | token id, creation time, origin transaction and chain are those of the event that introduced the SRR, the chain unless a migration changed it; the update time is 1000 times the seconds of the last event to touch it |
| `SrrHistory.DescriptionReflectsHistory` | subgraph/src/lib/srr-handlers.ts:501-524 | issuer flag, artist address, artist, issuer and collection are the ones given last, the wallets as known at that moment |
| `SrrHistory.TermsReflectHistory` | subgraph/src/lib/srr-handlers.ts:193-228 | lock and royalty are the ones given last |
| `SrrHistory.WalletsOfHistory` | subgraph/src/lib/srr-handlers.ts:585-589 | an address has a wallet exactly when one was announced |
| `SrrHistory.MetadataHistoryMeaning` | subgraph/src/lib/srr-handlers.ts:526-547 | the metadata history holds exactly the ids some event wrote, each with the record of the last event to write there, whether or not ids coincide |
| `SrrHistory.CommitmentAgreement` | subgraph/src/lib/srr-handlers.ts:348-389 | in every reachable state commit records belong to stored SRRs, equal their commitment, say approve exactly when it is set, and SRRs without a record have none |
| `SrrHistory.LeftIffRecorded` | subgraph/src/lib/srr-handlers.ts:80-94 | a provenance exists for an SRR and time exactly when a provenance event or a non-mint transfer of the then known SRR happened at that time |
| `SrrHistory.MovesLeaveTraces` | subgraph/src/lib/srr-handlers.ts:80-92 | in a run that goes through, every non-mint transfer counts as such an event |
| `SrrHistory.StoredProvenances` | subgraph/src/lib/srr-handlers.ts:297-345 | absent hash collisions the stored provenances are those of the history, one per SRR and time, under their hashed ids |
| `SrrHistory.ProvenanceCount` | subgraph/src/lib/srr-handlers.ts:297-345 | absent hash collisions an SRR has as many provenances as there are distinct times, in seconds, of its provenance events and non-mint transfers |
| `SrrHistory.FirstTraceIsStored` | subgraph/src/lib/srr-handlers.ts:297-345 | the record stored for an SRR and a time says, field by field, what the first such event said: parties, sender, digest, URI, custom history and intermediary flag, or the parties alone for a transfer; its dates are that time, or those of the last date fix since for time 66000 |
| `SrrHistory.HistoryRecordsEveryPair` | subgraph/src/lib/srr-handlers.ts:241-259 | every pair of token and custom history ends up recorded under its own id, repeats included, and no other record changes |
| `SrrHistory.HistoriesReflectRun` | subgraph/src/lib/srr-handlers.ts:230-260 | after any run, absent hash collisions, the custom histories on record are exactly the pairs some event named, each dated by the last event to name it |
| `FeatureTable.CutMeaning` | utils/collection/utils.ts:17-118 | the selectors of a cut can be cut exactly when they do not repeat and each may be added, replaced or removed; the resulting table in closed form |
| `FeatureTable.CutGoesThroughIff` | utils/collection/utils.ts:17-118 | a cut goes through exactly when there are selectors, they can be cut, and a removal names the zero address |
| `FeatureTable.PartitionMeaning` | utils/collection/utils.ts:223-236 | common, legacy and new selectors are the intersection and the two differences, without repeats |
| `FeatureTable.GetSelectorsMeaning` | utils/collection/utils.ts:45-54 | the selectors are those of all functions but supportsInterface |
| `FeatureTable.GetSelectorsInOrder` | utils/collection/utils.ts:45-54 | one selector for each such function, in the order of the functions |
| `FeatureTable.UpgradeMeaning` | utils/collection/utils.ts:218-248 | an upgrade goes through exactly when new selectors are free, common ones point elsewhere and legacy ones exist; the final table moves every new-version selector, drops the others of the old version and keeps the rest |
| `FeatureTable.UpgradeKeepsResolving` | utils/collection/utils.ts:238-248 | in the table after each cut common selectors and foreign selectors resolve, and legacy ones do until the last cut |
| `FeatureTable.SensibleStep` | utils/collection/utils.ts:130-175 | a sensible deployment or upgrade never reverts and keeps the table the disjoint union of the features |
| `FeatureTable.UpgradeHistories` | utils/collection/utils.ts:130-253 | over any sensible history nothing reverts and the table is always the disjoint union of each feature's current selectors at its current address |
| `FeatureRegistry.Registry.DiamondCut` | utils/collection/utils.ts:31-40 | a cut transaction succeeds exactly when the cut does and the call along with it does not revert; then the table is as the cut says, otherwise unchanged |
| `FeatureRegistry.DeployFeature` | utils/collection/utils.ts:130-175 | deploying adds the contract's selectors in one transaction and then its interfaces, or fails, by the cut or by the initialising call, and changes nothing |
| `FeatureRegistry.UpgradeFeature` | utils/collection/utils.ts:188-253 | ends with the upgraded table, every table in between resolving the common selectors, or stops at the reverted cut with exactly the earlier cuts made |
| `TypeLists.BuildTypeList` | startrail-common-js/meta-tx/eip712-message-types/helpers.ts:18-34 | from and nonce, then data: bytes if some type is text, bytes or holds an open array, then the fields in order |
| `TypeLists.DynamicMeaning` | startrail-common-js/meta-tx/eip712-message-types/helpers.ts:12-13 | a type is dynamic exactly when it is string or bytes or an opening bracket is followed by a closing one somewhere |
| `TypeLists.AddHistoryList` | startrail-common-js/meta-tx/eip712-message-types/startrail-registry-types.ts:253-257 | the list for adding history, whose two arrays call for the calldata slot, in full |
| `TypeLists.DestinationCommutesIff` | startrail-common-js/meta-tx/eip712-message-types/collection.types.ts:25-46 | inserting the destination equals building with the destination put first, exactly when there are fields and the first of only static ones is not called data |
| `TypeLists.DestinationMisplaced` | startrail-common-js/meta-tx/eip712-message-types/collection.types.ts:34 | a static field called data is mistaken for the calldata slot |
| `TypeLists.DataSlotIff` | startrail-common-js/meta-tx/meta-tx-request-registry.ts:99 | a built list has a field called data, and has it third as bytes, exactly when some type is text, bytes or holds an open array |
| `TypeLists.RegisteredTypeIsEncodeTypeIff` | startrail-common-js/meta-tx/meta-tx-request-registry.ts:65-69 | name, generic members and suffix as the contract joins them are the full type string exactly when the suffix is not empty |
| `TypeLists.TypeStringRoundTrip` | startrail-common-js/meta-tx/meta-tx-request-registry.ts:49-57 | a type string parses back to its name and field list |
| `TypeLists.TypeOfTwo` | startrail-common-js/meta-tx/meta-tx-request-registry.ts:65-69 | type, space and name for each member, commas in between |
| `Records.TypedParamsIsMap` | startrail-common-js/meta-tx/eip712-typed-data-builder.ts:154-194 | with distinct stripped keys the conversions act entry by entry in order: one leading underscore goes, a BigNumber becomes its decimal text, all else stays |
| `Records.LastValueCounts` | startrail-common-js/meta-tx/eip712-typed-data-builder.ts:188-194 | of values whose keys are the same once stripped the last one counts |
| `Records.OneUnderscore` | startrail-common-js/meta-tx/eip712-typed-data-builder.ts:188-194 | one leading underscore is stripped, any other key stays |
| `Records.OmitMeaning` | startrail-common-js/contracts/utils.ts:60-71 | the values without a key are the record's values in their order, those behind the key one place up |
| `Records.OmitCommutes` | startrail-common-js/contracts/utils.ts:48-71 | the raw and the converted request give the same arguments up to number format when the dropped key is not underscored |
| `Records.UnderscoredKeyIsKept` | startrail-common-js/contracts/utils.ts:62-68 | an underscored destination stays in the raw arguments, one value too many |
| `MetaTxBuilder.EIP712TypedDataBuilder.Build` | startrail-common-js/meta-tx/eip712-typed-data-builder.ts:66-102 | fails only for lack of calldata; the message holds every request value under its stripped key as text, the real from and nonce where not overridden, and when a slot requires it the calldata of exactly the converted values in record order without the destination |
| `MetaTxBuilder.EIP712TypedDataBuilder.EncodeSuffixData` | startrail-common-js/meta-tx/eip712-typed-data-builder.ts:109-146 | the suffix is 0x and the hex of the words of the request's own fields, with nothing left of the dummies |
| `MetaTxBuilder.EncodeExecuteTransactionProps` | startrail-common-js/contracts/meta-tx-forwarder/index.ts:212-257 | the contract reassembles from the returned request exactly the signed bytes if and only if the request is unambiguous; its calldata is that of exactly the raw values in record order without the destination; the joined signatures are in the one slot the kind asks for |
| `SignedEqualsSubmitted.TypeListWords` | startrail-common-js/meta-tx/eip712-typed-data-builder.ts:136-143 | the encoding of a built list is from, nonce, the optional calldata hash and then the request's own words |
| `SignedEqualsSubmitted.WordAt` | startrail-common-js/meta-tx/eip712-typed-data-builder.ts:134 | the words stand in the order of the fields, each the field's value encoded at the field's type |
| `SignedEqualsSubmitted.SuffixMeaning` | startrail-common-js/meta-tx/eip712-typed-data-builder.ts:120-145 | the suffix cut off after 194 or 258 digits is the words of the request's own fields, whatever the dummies encode to |
| `SignedEqualsSubmitted.CalldataAgreesIff` | startrail-common-js/contracts/meta-tx-forwarder/index.ts:223-230 | signed and submitted calldata are the same exactly when the raw request holds no underscored destination and its arguments encode alike before and after conversion; with an underscored destination there is no submitted calldata |
| `SignedEqualsSubmitted.ConvertsAlikeIff` | startrail-common-js/meta-tx/eip712-typed-data-builder.ts:167-176 | converting BigNumbers to text leaves the calldata as it is exactly when each of them stands at a parameter that takes numbers |
| `SignedEqualsSubmitted.SignedEqualsSubmittedIff` | contracts/metaTx/MetaTxRequestManager.sol:196-241 | for every signable request, absent a collision of the two calldatas, a submission exists and the contract reassembles exactly the signed bytes from it, if and only if no value overrides from or nonce by another word and, where there is calldata, no underscored destination is among the arguments and converting them makes no difference |
| `SignedEqualsSubmitted.AgreesExactlyWhenWellPut` | startrail-common-js/contracts/meta-tx-forwarder/index.ts:212-238 | the same in terms a caller can read off the request: no override by another word and, where there is calldata, no underscored destination and no BigNumber at a parameter that takes no numbers |
| `SignedEqualsSubmitted.PlainRequestAgrees` | startrail-common-js/contracts/meta-tx-forwarder/index.ts:232-238 | a request without such keys and with BigNumbers where numbers are taken only is submitted and reassembled as signed, whatever the hash and however calldata is laid out |
| `SignedEqualsSubmitted.OverriddenFromIsNotSubmitted` | startrail-common-js/meta-tx/eip712-typed-data-builder.ts:96-100 | any request, of any type, with a from among its values that encodes to another word is not reassembled as signed |
| `SignedEqualsSubmitted.UnderscoredDestinationIsNotSubmitted` | startrail-common-js/contracts/utils.ts:62-68 | any signable request with a calldata slot that names its destination with an underscore cannot be submitted |
| `SubmissionExamples.OverriddenFrom` | startrail-common-js/meta-tx/eip712-message-types/startrail-registry-types.ts:244-247 | under concrete encoders a request about one token with another wallet as _from is signable and submitted, but not as signed |
| `SubmissionExamples.UnderscoredDestination` | startrail-common-js/meta-tx/eip712-message-types/startrail-registry-types.ts:143-147 | a collection metadata update with its destination underscored is signable and has no submission |
| `SubmissionExamples.NumberForText` | startrail-common-js/meta-tx/eip712-typed-data-builder.ts:167-176 | a metadata update with a BigNumber for its text is signable and submitted, but not as signed |
| `SubmissionExamples.OrdinaryUpdate` | startrail-common-js/meta-tx/eip712-message-types/startrail-registry-types.ts:143-152 | the ordinary metadata update, token id as a BigNumber, is signable and comes back as signed |
| `SubmissionExamples.SimpleIsLawful` | startrail-common-js/meta-tx/eip712-typed-data-builder.ts:124-134 | the concrete encoders have every property asked of encoders in general, so the results above are about something |
| `SubmissionExamples.SimpleIsAbi` | startrail-common-js/contracts/utils.ts:57-71 | they have the properties asked of calldata encoding as well |
| `SignedEqualsSubmitted.DestinationSchema` | startrail-common-js/meta-tx/eip712-message-types/collection.types.ts:56-84 | lists with an inserted destination fall under the same result |
| `MultiSend.RoundTrip` | contracts/lib/MultiSend.sol:39-64 | the contract's loop over the encoded hex string finds exactly the given transactions, operation, destination, no value and data, for every list |
| `MultiSend.EncodingIsHex` | startrail-common-js/contracts/administrator/multi-send.ts:40-46 | the encoding is 0x followed by hex |
| `MultiSend.OneIsRecord` | startrail-common-js/contracts/administrator/multi-send.ts:22-33 | one transaction alone is 0x and the hex of its record |
| `MultiSend.DataMeaning` | startrail-common-js/contracts/administrator/multi-send.ts:22-33 | calldata is read the same with and without its prefix |
| `MultiSend.EncodingInjective` | startrail-common-js/contracts/administrator/multi-send.ts:40-46 | two lists have the same encoding exactly when they ask for the same calls |
| `MultiSend.EncodingAppends` | startrail-common-js/contracts/administrator/multi-send.ts:40-46 | appending lists appends their encodings |
| `MultiSend.SingleDestinationRoundTrip` | startrail-common-js/contracts/administrator/multi-send.ts:61-68 | the contract sends each calldata, in order, to the one destination with the one operation |
| `Nonces.PackingMeaning` | startrail-common-js/meta-tx/nonce.ts:12-15 | packing shifts the channel by 128 bits: sixteen bytes of channel, then sixteen of nonce |
| `Nonces.UnpackingMeaning` | startrail-common-js/meta-tx/nonce.ts:22-25 | unpacking splits at bit 128 |
| `Nonces.UnpackOfPack` | startrail-common-js/meta-tx/nonce.ts:12-25 | unpacking undoes packing exactly for nonces below 2^128 |
| `Nonces.PackOfUnpack` | startrail-common-js/meta-tx/nonce.ts:12-25 | packing undoes unpacking, and both parts of a 256-bit nonce fit 128 bits |
| `Nonces.NoReplay` | contracts/metaTx/replayProtection/ReplayProtection.sol:69-86 | over any run of submissions no wallet has one packed nonce accepted twice |
| `Nonces.AcceptedNoncesAscend` | contracts/metaTx/replayProtection/ReplayProtection.sol:76-82 | within a channel later acceptances carry greater nonces |
| `Nonces.ChannelCountsUp` | contracts/metaTx/replayProtection/ReplayProtection.sol:79-82 | the nonces accepted on a channel are exactly those below the expected one |
| `Nonces.ChannelsAreIndependent` | contracts/metaTx/replayProtection/ReplayProtection.sol:10-14 | what a channel expects depends on the submissions of its own wallet and channel only |
| `Nonces.ReplayProtection.CheckAndUpdateNonce` | contracts/metaTx/replayProtection/ReplayProtection.sol:69-86 | accepts exactly the expected nonce, reverts on the last one, and counts every channel correctly afterwards |
| `Nonces.ReplayProtection.GetNonce` | startrail-common-js/meta-tx/nonce.ts:34-41 | the packed nonce it returns is the channel, shifted, plus what the channel expects, and is accepted next unless the channel is used up |
| `Sign.AddressOrder` | startrail-common-js/meta-tx/sign.ts:120-130 | comparing lowercased address strings is comparing the addresses as numbers, in any mix of cases |
| `Sign.AddressMeaning` | startrail-common-js/meta-tx/sign.ts:120-130 | the number compared is that of the address's twenty bytes |
| `Ordering.SortIsStable` | startrail-common-js/meta-tx/sign.ts:93-96 | signers with one address keep their order |
| `Sign.SignTypedData` | startrail-common-js/meta-tx/sign.ts:77-104 | an error exactly when some wallet cannot sign typed data, with nothing sorted; otherwise the caller's array is sorted by address and the signatures come in that order |
| `Sign.OrderOfSignersIrrelevant` | startrail-common-js/meta-tx/sign.ts:93-104 | distinct signers in any order give the same submission |
| `Sign.SubmittedString` | startrail-common-js/meta-tx/sign.ts:114-115 | the joined signatures are 0x and the hex of one signature after the other |
| `Sign.SubmittedPieces` | startrail-common-js/meta-tx/sign.ts:114-115 | the i-th 65-byte piece of the joined signatures is that of the signer with the i-th lowest address |
| `Sign.RecoveredSignersAscend` | startrail-common-js/meta-tx/sign.ts:93-115 | the addresses recovered from consecutive pieces strictly increase as numbers |
| `Sign.AcceptedExactlyForOwners` | contracts/licensedUser/SignatureChecker.sol:28-69 | the contract's check passes exactly when there are at least threshold signers and the threshold lowest ones are owners |
| `OwnerList.GetOwnersIsTheList` | contracts/licensedUser/OwnerManager.sol:393-411 | walking the links of a wallet returns its owners in order, then a zero for each owner counted but not linked |
| `OwnerList.ListIsUnique` | contracts/licensedUser/OwnerManager.sol:34-38 | the stored links determine the owner list |
| `OwnerList.SetupMeaning` | contracts/licensedUser/OwnerManager.sol:162-199 | for every list: accepted exactly when the threshold is legal, no owner stands three times in a row and the list without immediate repeats is proper; that squeezed list is what gets linked, the count is of the given list modulo 256 |
| `OwnerList.LongListCannotBeRead` | contracts/licensedUser/OwnerManager.sol:393-411 | an accepted list of more than 255 owners runs past its count, so reading the owners reverts |
| `OwnerList.AcceptedIsWellFormedIff` | contracts/licensedUser/OwnerManager.sol:180-195 | an accepted list is well linked exactly when it has at most 255 owners and none stands next to itself |
| `OwnerList.AdjacentRepeatSlipsThrough` | contracts/licensedUser/OwnerManager.sol:188-195 | an owner named twice in a row is accepted, counted twice and listed once |
| `OwnerList.AddOwnerMeaning` | contracts/licensedUser/OwnerManager.sol:215-247 | exactly which additions are accepted, and that the owner is put first; for every linked wallet, its count right or too high |
| `OwnerList.PredecessorMeaning` | contracts/licensedUser/OwnerManager.sol:277-281 | an address links to an owner exactly when it stands right before it, the sentinel before the first |
| `OwnerList.RemoveOwnerMeaning` | contracts/licensedUser/OwnerManager.sol:258-292 | exactly which removals are accepted, and that the remaining owners keep their order; for every linked wallet, its count right or too high |
| `OwnerList.SwapOwnerMeaning` | contracts/licensedUser/OwnerManager.sol:304-341 | exactly which swaps are accepted, and that the new owner takes the old one's place; for every linked wallet, its count right or too high |
| `LumRemoveOwner.HelperArgumentsAreAccepted` | utils/lum-remove-owner.js:10-20 | for every linked wallet that counts two or more owners the helper's predecessor is the only one that links to the owner, its threshold is legal, and the contract accepts both; the owners left can meet the threshold exactly when the count was right or the threshold below the number of owners |
| `LumRemoveOwner.LastOwnerIsRemoved` | utils/lum-remove-owner.js:31-42 | on a wallet set up with one owner twice in a row the helper's removal is accepted and leaves a threshold of one and no owner |
| `LumRemoveOwner.LumRemove` | utils/lum-remove-owner.js:22-61 | refuses unknown wallets, non-owners and last counted owners, otherwise leaves the other owners in order with a threshold shrunk only if it must; for every account a run can produce |
| `LicensedUsers.LicensedUserIndex.HandleAddedOwner` | subgraph/src/luw-mapping.ts:62-85 | puts the owner last in the indexed list of a known wallet and touches nothing else but its update time |
| `LicensedUsers.LicensedUserIndex.HandleRemovedOwner` | subgraph/src/luw-mapping.ts:87-118 | drops the first occurrence of the owner, if any, and touches nothing else but the update time |
| `LicensedUsers.LicensedUserIndex.HandleCreateLicensedUserWallet` | subgraph/src/luw-mapping.ts:32-60 | indexes a new wallet with owners, threshold, names and creation time, leaves those of a known one, and sets user type, salt and update time of either |
| `LicensedUsers.LicensedUserIndex.HandleUpgradeLicensedUserWalletToMulti` | subgraph/src/luw-mapping.ts:141-162 | replaces owners and threshold of a known wallet |
| `LicensedUsers.LicensedUserIndex.HandleChangedThreshold` | subgraph/src/luw-mapping.ts:120-139 | sets the threshold of a known wallet |
| `LicensedUsers.LicensedUserIndex.HandleAll` | subgraph/src/luw-mapping.ts:32-162 | handling any list of events is a run of the index transitions by which the chain is tracked |
| `LicensedUsers.DetailsReflectRun` | subgraph/src/luw-mapping.ts:32-60 | after any run the names, user type, salt and creation time of a wallet are those of the request that created it |
| `LicensedUsers.CreationFits` | contracts/licensedUser/LicensedUserManagerV02.sol:253-267 | creating a wallet with more than 255 owners always reverts, as its owners are read back for the event |
| `LicensedUsers.StepMirrorsIff` | contracts/licensedUser/LicensedUserManagerV02.sol:327-345 | after an accepted request every account is indexed with its threshold and a duplicate-free permutation of its owners, exactly when the request sets up no owner next to itself |
| `LicensedUsers.IndexTracksChain` | subgraph/src/luw-mapping.ts:62-118 | over every run, careful or not, an account is indexed with its threshold, all its owners, and beside them just the stray entries its set-up left, one for each owner counted too many |
| `LicensedUsers.IndexMirrorsAccountIff` | contracts/licensedUser/OwnerManager.sol:180-195 | at the end of any run an account is indexed with a duplicate-free permutation of its owners exactly when no accepted request ever set it up with an owner next to itself |
| `LicensedUsers.IndexMirrorsChainIff` | subgraph/src/luw-mapping.ts:62-118 | at the end of any run of creations, additions, removals, swaps and threshold changes, reverted ones included, the index mirrors the chain exactly when every accepted request was careful |
| `LicensedUsers.CarelessRunDiverges` | contracts/licensedUser/LicensedUserManagerV02.sol:336-342 | adding a single owner's own address makes the index list it twice |

## Left out

- Solidity contracts beyond the parts that fix what the companion code must meet: owner list, single-owner wallets, nonces, signature check, MultiSend loop and request reassembly. Access control and forwarding are not modelled.
- ECDSA, keccak256, ABI and EIP-712 field encodings: function parameters with the stated assumptions only.
- The bytes the indexer's BigInt has for a token id: a function parameter, assumed to tell tokens apart where that matters.
- `getHexRoot` and `getHexProof`, which write root and proof in hex.
- JavaScript's sort algorithm: sorting is a stable sort function with proved meaning, and the caller's array is overwritten with its result.
- Records with integer-like keys, which JavaScript would move to the front: request and field names are identifiers.
- The `...Str` date fields, logging and network names; timestamps are natural numbers.
- CustomHistory entities and their handlers.
- The graph node: not part of this model. What is taken from it is that an entity without a value for a field the schema requires (subgraph/schema.graphql:59-60) cannot be saved, that such a save and the null entity of the registry form of CreateSRR abort the handler, and that an aborted handler leaves no mark and ends indexing.
- Non-hex digests of 64 characters in provenance events: the model lowercases hex digits and leaves other characters as they are.
- Later changes to the names of licensed user wallets, and the origin dates of migrated ones.
- Feature cuts: a cut without selectors reverts in the model, which is what the emptiness guards of `upgradeFeature` and the diamond reference implementations presuppose; facet code checks are not modelled, and of an `initData` call only whether it reverts.
- MultiSend requests: addresses have 20 bytes and operations 8 bits; an address of another length is packed as it is by the encoder and is not modelled.
- Deployment scripts, providers, RPC and JSON plumbing.
