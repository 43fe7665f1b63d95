# Emoji groups: a Dafny model

This project models the emoji group-membership feature of the Rhythm forum.

**What users do.** Every user owns emoji groups:
- exactly one "all" group (type code 1, named "全部"), which the feature creates on first listing;
- any number of custom groups (type code 0).

A group item links an emoji image record to a group and carries a group-local name and sort.

**What the model covers.** The repositories, the management service, the query service and the decision logic of the HTTP handlers, all as pure functions over one immutable `Store`:
- emoji records, group records and group items;
- each held as a sequence in table order.

**Handlers.** The caller's id and the request fields arrive as parameters: a missing string field reads as "", a missing array as `None`. Each handler answers with the store it leaves behind and either a result or an error kind.

**Modules.**

- `Tables`: the persistence-library primitives the repositories use: first match, filtered list, stable sort, keyed update.
- `EmojiModel`: the records, the error kinds, blank-string and whitespace rules, id generation, well-formedness.
- `EmojiRepository`, `EmojiGroupRepository`, `EmojiGroupItemRepository`: the queries and removals, as selections and orderings.
- `EmojiQueryService`, `EmojiMgmtService`: the two services.
- `EmojiProcessor`: the handlers.
- `EmojiInvariants`: the invariants, and one preservation lemma per handler.
- `EmojiRequests`: every request as one state machine.
- `EmojiProperties`: consequences of the code as written.

**Invariants.** `Inv` is `Wf`, `OnePerPair` and `Mirrored`:
- `Wf`: unique primary keys, the `emojiGroupId` column never written, one "all" group per user.
- `OnePerPair`: at most one item per (group, emoji) pair.
- `Mirrored`: every emoji in a custom group is also in the owner's "all" group.

**The main theorem, `EmojiRequests.ReplayKeepsInv`.** Once every acting user has an "all" group, no sequence of requests breaks `Inv`. Every request keeps the keys unique, one item per pair and every user's "all" group. The only step that can break the mirror rule is the failed mirror. That failure, `AddFailed`, happens only for a caller with no "all" group, and listing one's groups creates one.

Behaviour the model follows from the code as written:

- **The `emojiGroupId` column is never written.** Group ids live in the primary key, but two checks read that separate column, and creation never writes it.
  - `createAllGroup` on a user who already has an "all" group answers "".
  - Renaming a group to its own current name fails as a name clash: the self-exclusion compares against "".
- **Group names are checked per user across both types, but only when a custom group is created or renamed.** Once the user has an "all" group, a custom group cannot take the name "全部". Before the first listing it can: the "all" group created then is appended without a name check, and the user ends with two groups named "全部" (`EmojiProperties.AllNameTakenBeforeListing`).
- **The batch group re-sort has no type check.** It re-sorts the "all" group; the single re-sort refuses.
- **The handler rejects a duplicate addition; the service addition is a silent no-op.** The mirror write into "all" goes through the silent path, so an existing "all" item keeps its name and sort.
- **The failed mirror is a partial write.** The mirror step reads the caller's "all" group only after the custom item is written. With no "all" group it fails with `AddFailed` and leaves the custom item in place. `EmojiProperties.MirrorFailureBreaksMirrorRule` exhibits a valid store where this breaks the mirror rule.
- **Adding by URL resolves or creates the emoji before the duplicate check.** A newly created record is in no group, though. A duplicate rejection therefore only happens for a known URL, and then writes nothing (`EmojiProcessor.AddUrlDuplicateWritesNothing`).
- **`getGroupEmojis` pairs emoji records with items by position, not by emoji id.**
  - The emoji records come from an IN query with no sort; the model takes them in table order (see "## Left out").
  - The items are in item-sort order.
  - Labels can therefore land on the wrong emoji (`EmojiQueryService.MergeMislabels`).
  - With unique emoji ids the merge never runs past the item list (`EmojiQueryService.GetGroupEmojisSucceeds`). Without them it can fail: two records sharing the id of a group's only item outnumber it (`EmojiQueryService.DuplicateIdsFailListing`).
- **Removal is asymmetric.** Removing an emoji from the "all" group removes it from every group of the owner. Removing it from a custom group removes only that item.

## Model

| member | source | states |
|---|---|---|
| EmojiModel.FreshId | src/main/java/org/b3log/symphony/service/EmojiMgmtService.java:100 | the id the repository assigns to a new record is non-blank, names no existing emoji, group or item, and no item refers to it yet |
| Tables.LastWithKeyIsLast | src/main/java/org/b3log/symphony/service/EmojiMgmtService.java:209-218 | the batch updates run in array order, so the record of a key's last occurrence is the one that stays |
| EmojiRepository.GetById | src/main/java/org/b3log/symphony/repository/EmojiRepository.java:67-69 | finds a stored record with that id, and finds none exactly when no record has it |
| EmojiRepository.GetByUrl | src/main/java/org/b3log/symphony/repository/EmojiRepository.java:73-78 | exact URL match; none exactly when no record has the URL; otherwise the first such record in table order |
| EmojiRepository.GetEmojisByIds | src/main/java/org/b3log/symphony/repository/EmojiRepository.java:53-58 | exactly the stored records whose id was asked for, each as often as stored, whatever their status |
| EmojiRepository.GetEmojisByIdsBounded | src/main/java/org/b3log/symphony/repository/EmojiRepository.java:53-58 | with unique emoji ids the answer has unique ids and is no longer than the number of distinct ids asked for |
| EmojiGroupRepository.GetByUserId | src/main/java/org/b3log/symphony/repository/EmojiGroupRepository.java:52-57 | exactly the user's groups, each as often as stored, in ascending sort order |
| EmojiGroupRepository.GetAllGroup | src/main/java/org/b3log/symphony/repository/EmojiGroupRepository.java:66-72 | a stored group of the user with type "all", and none exactly when the user has no such group |
| EmojiGroupRepository.GetByUserIdAndName | src/main/java/org/b3log/symphony/repository/EmojiGroupRepository.java:83-89 | matches user and name only, either type, and finds none exactly when no group of the user has the name |
| EmojiGroupRepository.GetById | src/main/java/org/b3log/symphony/repository/EmojiGroupRepository.java:99-101 | finds a stored group with that id, and none exactly when no group has it |
| EmojiGroupRepository.GetByIdUnique | src/main/java/org/b3log/symphony/repository/EmojiGroupRepository.java:99-101 | with unique group ids the lookup returns the one stored group with that id |
| EmojiGroupItemRepository.GetByGroupId | src/main/java/org/b3log/symphony/repository/EmojiGroupItemRepository.java:52-57 | exactly the group's items, each as often as stored, in ascending item-sort order |
| EmojiGroupItemRepository.GetByGroupIdAndEmojiId | src/main/java/org/b3log/symphony/repository/EmojiGroupItemRepository.java:82-88 | a stored item linking both ids, and none exactly when no item links them |
| EmojiGroupItemRepository.RemoveByGroupIdAndEmojiId | src/main/java/org/b3log/symphony/repository/EmojiGroupItemRepository.java:66-72 | removes every item linking both ids and keeps every other item with its multiplicity; no match leaves the table unchanged; unique keys stay unique |
| EmojiGroupItemRepository.RemoveByGroupId | src/main/java/org/b3log/symphony/repository/EmojiGroupItemRepository.java:96-101 | removes every item of the group and keeps every other group's items with their multiplicity; unique keys stay unique |
| EmojiQueryService.GetUserGroups | src/main/java/org/b3log/symphony/service/EmojiQueryService.java:80-86 | exactly the user's groups, each as often as stored, in ascending sort order |
| EmojiQueryService.GetAllGroup | src/main/java/org/b3log/symphony/service/EmojiQueryService.java:95-101 | the user's "all" group, or none exactly when the user has no "all" group |
| EmojiQueryService.GetGroupEmojis | src/main/java/org/b3log/symphony/service/EmojiQueryService.java:110-137 | an empty group lists nothing; otherwise the listing succeeds exactly when the IN query returns no more records than the group has items, and then entry i is the i-th returned record labelled with the i-th item (in item-sort order) name and sort; every listed record is stored and is the emoji of an item of the group |
| EmojiQueryService.ListedEmojisHaveItems | src/main/java/org/b3log/symphony/service/EmojiQueryService.java:118-124 | every record the IN query returns is a stored emoji of one of the group's items |
| EmojiQueryService.GetGroupEmojisSucceeds | src/main/java/org/b3log/symphony/service/EmojiQueryService.java:118-131 | with unique emoji ids the positional merge never runs past the item list, so the listing succeeds |
| EmojiQueryService.GetGroupEmojisComplete | src/main/java/org/b3log/symphony/service/EmojiQueryService.java:110-137 | with unique emoji ids the listing succeeds and shows exactly the stored emojis the group's items refer to, each once |
| EmojiQueryService.MergeMislabels | src/main/java/org/b3log/symphony/service/EmojiQueryService.java:118-131 | two items whose sort order is the reverse of their emojis' table order swap labels: each emoji is listed with the other item's name and sort |
| EmojiQueryService.DuplicateIdsFailListing | src/main/java/org/b3log/symphony/service/EmojiQueryService.java:118-131 | with two emoji records sharing the id of a group's only item, the positional merge runs past the item list and the listing fails |
| EmojiQueryService.IsEmojiInGroup | src/main/java/org/b3log/symphony/service/EmojiQueryService.java:147-154 | true exactly when a stored item links the group and the emoji |
| EmojiQueryService.GetEmojiById | src/main/java/org/b3log/symphony/service/EmojiQueryService.java:158-164 | a stored emoji with that id, none exactly when there is no such record |
| EmojiQueryService.GetEmojiByUrl | src/main/java/org/b3log/symphony/service/EmojiQueryService.java:168-174 | a stored emoji with that URL, none exactly when there is no such record |
| EmojiQueryService.GetGroupById | src/main/java/org/b3log/symphony/service/EmojiQueryService.java:183-189 | a stored group with that id, none exactly when there is no such group |
| EmojiQueryService.GetEmojiItemById | src/main/java/org/b3log/symphony/service/EmojiQueryService.java:193-199 | the stored item linking the group and the emoji, none exactly when the membership test is false |
| EmojiMgmtService.CreateAllGroup | src/main/java/org/b3log/symphony/service/EmojiMgmtService.java:83-104 | an existing "all" group leaves the store as it was and answers the unwritten column ""; otherwise exactly one group is appended: type "all", name "全部", sort 0, fresh id; afterwards the user has an "all" group |
| EmojiMgmtService.CreateAllGroupIdempotent | src/main/java/org/b3log/symphony/service/EmojiMgmtService.java:86-100 | creating the "all" group a second time changes nothing |
| EmojiMgmtService.CreateGroup | src/main/java/org/b3log/symphony/service/EmojiMgmtService.java:121-140 | fails exactly when a group of the user of either type has the name; otherwise appends exactly one custom group with that name and sort and a fresh id, nothing else changing |
| EmojiMgmtService.UpdateGroupName | src/main/java/org/b3log/symphony/service/EmojiMgmtService.java:158-183 | missing group, "all" group and a name held by a group of the user are the three failures; success rewrites only that group's name and update time |
| EmojiMgmtService.UpdateGroupSort | src/main/java/org/b3log/symphony/service/EmojiMgmtService.java:187-205 | fails exactly for a missing group or the "all" group; success rewrites only that group's sort and update time |
| EmojiMgmtService.BatchUpdateGroupSort | src/main/java/org/b3log/symphony/service/EmojiMgmtService.java:209-218 | each stored group takes the last batch record with its id, other groups stay, no type check |
| EmojiMgmtService.AddEmojiToGroup | src/main/java/org/b3log/symphony/service/EmojiMgmtService.java:231-250 | an existing pair leaves the store unchanged; otherwise exactly one item with the given sort and name is appended; afterwards the pair is linked |
| EmojiMgmtService.AddEmojiByUrl | src/main/java/org/b3log/symphony/service/EmojiMgmtService.java:254-269 | a known URL answers the stored record's id with the store unchanged (the uploader is not overwritten); an unseen URL appends one record with a fresh id |
| EmojiMgmtService.AddEmojiByUrlDeduplicates | src/main/java/org/b3log/symphony/service/EmojiMgmtService.java:257-265 | two additions of one URL answer the same id, whoever uploads, and the second writes nothing |
| EmojiMgmtService.RemoveEmojiFromGroup | src/main/java/org/b3log/symphony/service/EmojiMgmtService.java:279-285 | removes exactly the items linking the group and the emoji |
| EmojiMgmtService.DeleteGroup | src/main/java/org/b3log/symphony/service/EmojiMgmtService.java:294-322 | fails exactly for a missing group or the "all" group; success removes the group and all its items in one step, keeping emoji records and other groups' items |
| EmojiMgmtService.UpdateEmojiName | src/main/java/org/b3log/symphony/service/EmojiMgmtService.java:326-337 | fails exactly when no item links the group and emoji; success rewrites only that item's name |
| EmojiMgmtService.UpdateEmojiSort | src/main/java/org/b3log/symphony/service/EmojiMgmtService.java:341-352 | fails exactly when no item links the group and emoji; success rewrites only that item's sort |
| EmojiMgmtService.BatchUpdateEmojiSort | src/main/java/org/b3log/symphony/service/EmojiMgmtService.java:356-364 | each stored item takes the last batch record with its id, other items stay |
| EmojiProcessor.OwnedGroup | src/main/java/org/b3log/symphony/processor/EmojiProcessor.java:389-393 | the ownership gate admits only a stored group of the caller with that id, and never an absent id |
| EmojiProcessor.OwnedGroupExactly | src/main/java/org/b3log/symphony/processor/EmojiProcessor.java:389-393 | with unique group ids the gate admits exactly the caller's own groups |
| EmojiProcessor.GetUserGroups | src/main/java/org/b3log/symphony/processor/EmojiProcessor.java:132-151 | always succeeds with exactly the caller's groups, each as often as stored, in ascending sort order, including an "all" group; one is created (name "全部", sort 0) only when missing |
| EmojiProcessor.GetGroupEmojis | src/main/java/org/b3log/symphony/processor/EmojiProcessor.java:159-185 | blank id and unowned group are rejected; for an owned group the answer is the query service's listing of that group |
| EmojiProcessor.CreateGroup | src/main/java/org/b3log/symphony/processor/EmojiProcessor.java:192-219 | blank name is rejected; otherwise fails exactly on a name clash; success appends exactly the caller's new custom group |
| EmojiProcessor.UpdateGroupName | src/main/java/org/b3log/symphony/processor/EmojiProcessor.java:226-259 | blank fields, unowned group and the "all" group are rejected with no change; for an owned custom group, with the `emojiGroupId` column unwritten, it fails exactly when a group of the caller already has the new name (its own current name included); success rewrites only that custom group's name and update time |
| EmojiProcessor.UpdateGroupSort | src/main/java/org/b3log/symphony/processor/EmojiProcessor.java:262-290 | blank id and unowned group are rejected; an owned group fails exactly when it is the "all" group; success rewrites only its sort and update time |
| EmojiProcessor.DeleteGroup | src/main/java/org/b3log/symphony/processor/EmojiProcessor.java:298-327 | blank id and unowned group are rejected; an owned group fails exactly when it is the "all" group; success removes the group and exactly its items |
| EmojiProcessor.BatchUpdateGroupSort | src/main/java/org/b3log/symphony/processor/EmojiProcessor.java:330-362 | missing arrays and a length mismatch reject the batch; with matching arrays it succeeds exactly when every listed group is the caller's; nothing is written on a rejection; success changes no unlisted group |
| EmojiProcessor.BatchGroupSortWritesSorts | src/main/java/org/b3log/symphony/processor/EmojiProcessor.java:347-357 | after an accepted batch, a listed group takes the sort paired with its last occurrence in the id array, nothing else of it changing |
| EmojiProcessor.Mirror | src/main/java/org/b3log/symphony/processor/EmojiProcessor.java:409-413 | an "all" target needs no mirror; a custom target with no "all" group fails with nothing further written; success links the emoji in the caller's "all" group |
| EmojiProcessor.AddAndMirror | src/main/java/org/b3log/symphony/processor/EmojiProcessor.java:407-413 | after the write the pair is linked; a custom addition fails with `AddFailed` exactly when the caller has no "all" group; a custom addition that succeeds also links the emoji in the caller's "all" group |
| EmojiProcessor.CustomAddWrites | src/main/java/org/b3log/symphony/processor/EmojiProcessor.java:407-413 | a new custom addition appends exactly the custom item; with no "all" group that is the whole write and the answer is `AddFailed`; otherwise exactly one "all" item with the same name and sort follows unless the "all" group already links the emoji |
| EmojiProcessor.AddEmojiToGroup | src/main/java/org/b3log/symphony/processor/EmojiProcessor.java:373-424 | blank ids, unowned group, unknown emoji and an existing pair are rejected with no change; past those checks the write is the add-and-mirror step, which succeeds exactly when the target is the "all" group or the caller has one |
| EmojiProcessor.AddUrlEmojiToGroup | src/main/java/org/b3log/symphony/processor/EmojiProcessor.java:427-476 | unowned group is rejected with no change; it answers "already in group" exactly when the URL is known and its emoji is in the group; otherwise the URL is resolved and the add-and-mirror step follows, succeeding exactly when the target is the "all" group or the caller has one |
| EmojiProcessor.AddUrlDuplicateWritesNothing | src/main/java/org/b3log/symphony/processor/EmojiProcessor.java:446-458 | a duplicate rejection of an addition by URL only happens for a known URL, and then the store is unchanged |
| EmojiProcessor.RemoveFromGroups | src/main/java/org/b3log/symphony/processor/EmojiProcessor.java:505-508 | removing group by group deletes exactly the emoji's items in the listed groups |
| EmojiProcessor.RemoveEmojiFromGroup | src/main/java/org/b3log/symphony/processor/EmojiProcessor.java:483-520 | blank ids and unowned group are the only failures; from "all" the emoji leaves every group of the caller; from a custom group only that item goes |
| EmojiProcessor.UpdateEmojiItemName | src/main/java/org/b3log/symphony/processor/EmojiProcessor.java:523-559 | blank fields and an unowned group are rejected with no change; an owned group whose emoji is not linked answers "emoji not found" with no change, and no other error kind occurs; success rewrites only that item's name |
| EmojiProcessor.UpdateEmojiItemSort | src/main/java/org/b3log/symphony/processor/EmojiProcessor.java:562-598 | a blank emoji id and an unowned group are rejected with no change; an owned group whose emoji is not linked answers "emoji not found" with no change, and no other error kind occurs; success rewrites only that item's sort |
| EmojiProcessor.ItemSortBatchKeys | src/main/java/org/b3log/symphony/processor/EmojiProcessor.java:622-631 | only the listed emojis' items are keys of the batch |
| EmojiProcessor.ItemSortBatchTargets | src/main/java/org/b3log/symphony/processor/EmojiProcessor.java:622-631 | writing the batch leaves every unlisted item as it was |
| EmojiProcessor.BatchUpdateEmojiItemSort | src/main/java/org/b3log/symphony/processor/EmojiProcessor.java:601-636 | blank group id, missing or empty arrays and a length mismatch reject the batch; an unowned group answers "group not found"; for an owned group it answers "emoji not found" exactly when a listed emoji is not in the group and succeeds exactly when all are; nothing is written on a rejection; success touches only the listed items |
| EmojiProcessor.BatchItemSortWritesSorts | src/main/java/org/b3log/symphony/processor/EmojiProcessor.java:620-631 | after an accepted batch, a listed emoji's item in the group takes the sort paired with its last occurrence in the id array, nothing else of it changing |
| EmojiInvariants.ReshapeKeepsInv | src/main/java/org/b3log/symphony/service/EmojiMgmtService.java:177-178 | rewriting names, sorts and times in place keeps every invariant and every user's "all" group |
| EmojiInvariants.AddAndMirrorKeepsInv | src/main/java/org/b3log/symphony/processor/EmojiProcessor.java:407-413 | the write after the checks keeps unique keys and one item per pair, and a successful one keeps the mirror rule |
| EmojiInvariants.GetUserGroupsKeepsInv | src/main/java/org/b3log/symphony/processor/EmojiProcessor.java:138-143 | listing groups, with its "all"-group bootstrap, keeps every invariant |
| EmojiInvariants.CreateGroupKeepsInv | src/main/java/org/b3log/symphony/processor/EmojiProcessor.java:192-219 | creating a group keeps every invariant and every "all" group |
| EmojiInvariants.UpdateGroupNameKeepsInv | src/main/java/org/b3log/symphony/processor/EmojiProcessor.java:226-259 | renaming keeps every invariant and every "all" group |
| EmojiInvariants.UpdateGroupSortKeepsInv | src/main/java/org/b3log/symphony/processor/EmojiProcessor.java:262-290 | re-sorting a group keeps every invariant and every "all" group |
| EmojiInvariants.BatchUpdateGroupSortKeepsInv | src/main/java/org/b3log/symphony/processor/EmojiProcessor.java:330-362 | the batch group re-sort keeps every invariant and every "all" group, although it may re-sort an "all" group |
| EmojiInvariants.DeleteGroupKeepsInv | src/main/java/org/b3log/symphony/processor/EmojiProcessor.java:298-327 | deleting a custom group with its items keeps every invariant and every "all" group |
| EmojiInvariants.AddEmojiToGroupKeepsInv | src/main/java/org/b3log/symphony/processor/EmojiProcessor.java:373-424 | adding keeps unique keys, one item per pair and every "all" group; every outcome but the failed mirror keeps the mirror rule |
| EmojiInvariants.AddUrlEmojiToGroupKeepsInv | src/main/java/org/b3log/symphony/processor/EmojiProcessor.java:427-476 | adding by URL keeps unique keys, one item per pair and every "all" group; every outcome but the failed mirror keeps the mirror rule |
| EmojiInvariants.RemoveEmojiFromGroupKeepsInv | src/main/java/org/b3log/symphony/processor/EmojiProcessor.java:483-520 | both kinds of removal keep every invariant, the mirror rule included |
| EmojiInvariants.UpdateEmojiItemNameKeepsInv | src/main/java/org/b3log/symphony/processor/EmojiProcessor.java:523-559 | renaming an item keeps every invariant |
| EmojiInvariants.UpdateEmojiItemSortKeepsInv | src/main/java/org/b3log/symphony/processor/EmojiProcessor.java:562-598 | re-sorting an item keeps every invariant |
| EmojiInvariants.BatchItemSortOnlySorts | src/main/java/org/b3log/symphony/processor/EmojiProcessor.java:622-631 | an accepted batch item re-sort changes only sort fields, record by record |
| EmojiInvariants.BatchUpdateEmojiItemSortKeepsInv | src/main/java/org/b3log/symphony/processor/EmojiProcessor.java:601-636 | the batch item re-sort keeps every invariant |
| EmojiRequests.Handle | src/main/java/org/b3log/symphony/processor/EmojiProcessor.java:132-636 | every rejection but the failed mirror leaves the store unchanged; the failed mirror only meets a caller without an "all" group; listing gives the caller one; listing a group's emojis writes nothing |
| EmojiRequests.HandleKeepsInv | src/main/java/org/b3log/symphony/processor/EmojiProcessor.java:132-636 | every request keeps unique keys, one item per pair and every user's "all" group; all but the failed mirror keep the mirror rule |
| EmojiRequests.ReplayKeepsInv | src/main/java/org/b3log/symphony/processor/EmojiProcessor.java:407-413 | once every acting user has an "all" group, any sequence of requests keeps every invariant |
| EmojiRequests.ListingFirstKeepsInv | src/main/java/org/b3log/symphony/processor/EmojiProcessor.java:138-141 | a user who lists their groups first can then issue any requests without breaking an invariant |
| EmojiProperties.ForeignGroupLooksMissing | src/main/java/org/b3log/symphony/processor/EmojiProcessor.java:389-393 | another user's group gets the same "group not found" answer as a missing one, with no change, from rename, re-sort, delete, add and remove |
| EmojiProperties.AllGroupIsFixed | src/main/java/org/b3log/symphony/service/EmojiMgmtService.java:166-167 | the "all" group cannot be renamed, re-sorted or deleted on its own, and the attempt changes nothing |
| EmojiProperties.RenameToOwnNameFails | src/main/java/org/b3log/symphony/service/EmojiMgmtService.java:172-174 | renaming a custom group to its current name fails as a name clash |
| EmojiProperties.BatchResortsAllGroup | src/main/java/org/b3log/symphony/processor/EmojiProcessor.java:347-357 | the batch re-sort accepts and re-sorts the caller's "all" group |
| EmojiProperties.ItemEditsAreLocal | src/main/java/org/b3log/symphony/service/EmojiMgmtService.java:326-352 | editing an item leaves every other (group, emoji) pair's item untouched, the "all" group's included |
| EmojiProperties.ServiceAddIdempotent | src/main/java/org/b3log/symphony/service/EmojiMgmtService.java:234-237 | a second service addition of a pair changes nothing |
| EmojiProperties.SecondAddIsRejected | src/main/java/org/b3log/symphony/processor/EmojiProcessor.java:402-405 | after a successful addition, the same addition is rejected as a duplicate and writes nothing |
| EmojiProperties.GroupNamesArePerUser | src/main/java/org/b3log/symphony/service/EmojiMgmtService.java:124-127 | a second creation of a name by the same user fails, while other users' creations are unaffected |
| EmojiProperties.AllNameTakenBeforeListing | src/main/java/org/b3log/symphony/processor/EmojiProcessor.java:138-141 | a user with no groups may create a custom group named "全部", and the first listing then adds the "all" group under the same name, so the user has two groups with that name |
| EmojiProperties.MirrorKeepsExistingAllItem | src/main/java/org/b3log/symphony/processor/EmojiProcessor.java:409-413 | an item that existed before an addition is still the pair's only item afterwards, so a mirrored "all" item keeps its name and sort |
| EmojiProperties.RemoveFromCustomKeepsAll | src/main/java/org/b3log/symphony/processor/EmojiProcessor.java:509-511 | removing from a custom group leaves the emoji in the "all" group |
| EmojiProperties.RemoveFromAllClearsGroups | src/main/java/org/b3log/symphony/processor/EmojiProcessor.java:502-508 | removing from the "all" group takes the emoji out of every group of the owner |
| EmojiProperties.AddRemoveScenario | src/main/java/org/b3log/symphony/processor/EmojiProcessor.java:407-511 | add to a custom group (then in both), remove from it (still in "all"), remove from "all" (in neither) |
| EmojiProperties.LoneCustomAddFails | src/main/java/org/b3log/symphony/processor/EmojiProcessor.java:407-412 | with no "all" group, an addition to a custom group writes the custom item and then fails |
| EmojiProperties.MirrorFailureBreaksMirrorRule | src/main/java/org/b3log/symphony/processor/EmojiProcessor.java:407-412 | from a store meeting every invariant, that failed addition leaves a custom item with no "all" item |

## Left out

- HTTP plumbing is not modelled: routes, JSON parsing and rendering, login and CSRF checks. `Sessions.getUser()` becomes an explicit `userId` parameter. Request fields are parameters. The handlers' answers become an error kind or a value.
- Exceptions are collapsed into error kinds. This covers the repository-to-service wrapping, logging and the batch handlers' rethrow. A store failure inside a query is not modelled: the store here cannot fail, so the queries' "empty list / null / false" fallbacks never apply. The exception is the positional merge running past the item list, which becomes `GetGroupEmojisFailed`.
- The persistence library (Latke) is only visible through its calls, so its primitives are modelled by their observable effect:
  - `getFirst` is the first match in table order;
  - `getList` with a sort is a stable sort of the matches;
  - `getList` without a sort (the IN query of `getEmojisByIds`) is the matches in table order; the database's order is unspecified, so `EmojiQueryService.GetGroupEmojis` and `EmojiQueryService.MergeMislabels` fix one possible order;
  - `remove(query)` keeps the non-matching records;
  - `update(id, record)` replaces the records with that key;
  - `add` appends a record with a generated id (`EmojiModel.FreshId`, which stands in for the library's id generator).
- `deleteGroup`'s transaction is one atomic step; rollback cannot happen because the store cannot fail.
- Timestamps: `System.currentTimeMillis()` becomes a `now` parameter.
- Concurrency is not modelled. Races on "all"-group creation and URL de-duplication are outside a sequential model.
- Emoji `status` is carried but never written or read, as in the code.
- The model key classes (Emoji, EmojiGroup, EmojiGroupItem) hold only column names and type codes. They are folded into the datatypes.
- Integer request fields (sorts) are unbounded integers. Java's `optInt` parsing and 32-bit range are not modelled.
- `EmojiRequests.ReplayKeepsInv` needs every acting user to have an "all" group beforehand. Without one, `EmojiProperties.MirrorFailureBreaksMirrorRule` shows the mirror rule can break.
