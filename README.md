# Tenant user administration of Document Translation, in Dafny

Document Translation is a translation and readability web application
deployed per customer. Each tenant has an administration page. On that page a
tenant administrator lists the users of the tenant, adds drafts, edits names
and emails, and deletes users. The changes reach the user directory through
two routes:

- a Lambda function (`manageUsers`), which filters, creates, updates and
  deletes users in batches and answers with HTTP-like status codes;
- direct SDK calls made from the browser, whose reply rules differ from the
  Lambda's.

The page creates and deletes through the Lambda and updates through the
SDK. The SDK create and delete functions are alternatives that the page does
not import.

This project models that administration logic. It also models the small
decision functions around it:

- the deployment configuration parser;
- the display-mode button and the logo lookup of the page header;
- the side menu;
- the feature- and group-gated route table.

Every directory or Lambda call is abstracted as a supplied outcome: one per
record or id for a batch, or a function from request to reply. Each loop
that the code runs becomes a method. The method's loop invariant ties its
variables to a fold-left specification function (`Run(…, n)`), and the
promises of the code are proved as lemmas about that function.

Modules, one per source file (with shared types in `Wrappers`, `Collections`,
`Json`, `JsValues` and `UserModel`):

| module | file | source |
|---|---|---|
| `LambdaFilter`, `ClientFilter` | filter_users.dfy | manageUsers/filterUsers.ts, admin/filterUsers.tsx |
| `LambdaCreate` | create_users.dfy | manageUsers/createUsers.ts |
| `LambdaUpdate` | lambda_update.dfy | manageUsers/updateUsers.ts |
| `LambdaDelete` | lambda_delete.dfy | manageUsers/deleteUsers.ts |
| `LambdaHandler` | lambda_handler.dfy | manageUsers/index.ts, with manageUsers/retrieveUsers.ts |
| `SdkSaveNewUsers` | save_new_users.dfy | admin/util/saveNewUsers.tsx |
| `SdkSaveChangedUsers` | save_changed_users.dfy | admin/util/saveChangedUsers.tsx |
| `SdkDeleteUsers` | sdk_delete_users.dfy | admin/util/deleteUsers.tsx |
| `LambdaInvoke`, `ClientSaveNewUsers` | client_save_new_users.dfy | admin/util/saveNewUsers.ts |
| `ClientDeleteUsers` | client_delete_users.dfy | admin/util/deleteUsers.ts |
| `AdminPage` (class `AdminPanel`) | admin_panel.dfy | admin/AdminPanel.tsx |
| `UserRow` (class `UserRowState`) | user_row.dfy | admin/userRow.tsx |
| `AdminUtils` | admin_utils.dfy | admin/util/adminUtils.tsx, admin/checkAdmin.tsx |
| `SharedConfig` | shared_config.dfy | infrastructure/lib/shared.ts |
| `TopNavigation` | top_navigation.dfy | partial/topNavigation.tsx |
| `SideNavigation` | side_navigation.dfy | partial/sideNavigation.tsx |
| `AppRoutes` | app_routes.dfy | website/src/appRoutes.tsx |
| `AdminScenarios` | admin_scenarios.dfy | event sequences of admin/AdminPanel.tsx and admin/userRow.tsx |
| `ManageUsersRoundTrip` | manage_users_round_trip.dfy | manageUsers/index.ts read by admin/util/saveNewUsers.ts, admin/util/deleteUsers.ts and admin/AdminPanel.tsx |

`ManageUsersRoundTrip` joins the handler to the browser. The Lambda runtime
serialises the handler's response and the browser parses it again
(`Delivered`). The client functions then read the parsed reply as an object
with `message`, `details`, `usersAdded` and `usersDeleted` fields.

The page's records are objects that the working list, the snapshot and
the rows share. `AdminPanel` tracks whether the snapshot shares the working
list's records (`snapshotShared`), and each `UserRowState` reads the page's
record at its position. The constant `clonesOnCommit` is `false` for the
page as written; `true` gives the corrected page, whose every snapshot is a
copy. `AdminScenarios` runs event sequences on both.

`admin/checkAdmin.tsx` repeats `checkAdmin`, `isInAdminGroup` and `extractField` of
`admin/util/adminUtils.tsx` with the same statements (at lines 1-11, 13-41 and 43-65), so
`AdminUtils` models both copies and the table cites the utility file.

## Model

| member | source | states |
|---|---|---|
| UserModel.FindAttribute | infrastructure/lambda/manageUsers/filterUsers.ts:15-21 | the attribute found carries the name looked for |
| UserModel.FindAttributeFirst | infrastructure/lambda/manageUsers/filterUsers.ts:24-62 | the lookup finds something iff some attribute has the name, and what it finds is the first such attribute |
| UserModel.FirstWithEmail | infrastructure/lambda/manageUsers/createUsers.ts:68 | `find` on email: the index of the first record with that email, no earlier record has it |
| UserModel.FindIndex | website/src/page/admin/AdminPanel.tsx:278-280 | `findIndex` on one field (id or email): -1 iff no record holds the value there, otherwise the first index holding it |
| UserModel.Find | website/src/page/admin/AdminPanel.tsx:172-174 | `find` on one field, as the create merge (by email) and the update merge (by id, lines 209-211) use it: finds something iff some record holds the value, and what it finds is the first such record |
| UserModel.SelectTenantStep | infrastructure/lambda/manageUsers/filterUsers.ts:14-22 | selecting over one more listed user appends it exactly when it belongs to the tenant |
| UserModel.SelectTenantExactly | infrastructure/lambda/manageUsers/filterUsers.ts:15-22 | a listed user is selected iff its first tenant attribute exists and equals the administrator's tenant; a user without one is dropped |
| LambdaFilter.Filtered | infrastructure/lambda/manageUsers/filterUsers.ts:13-22 | the records of the tenant's users among the first n are at most n |
| LambdaFilter.FilteredAreSelectedRecords | infrastructure/lambda/manageUsers/filterUsers.ts:14-72 | the records are those of the selected users, one each, in listing order, each built from the first attributes of its names |
| LambdaFilter.FilterUsers | infrastructure/lambda/manageUsers/filterUsers.ts:9-74 | one record per user of the tenant, in listing order, no more records than users, each record built from sub, given_name, family_name, email and organisation attributes and carrying the administrator's tenant |
| ClientFilter.Filtered | website/src/page/admin/filterUsers.tsx:13-20 | the records of the tenant's users among the first n are at most n |
| ClientFilter.FilteredAreSelectedRecords | website/src/page/admin/filterUsers.tsx:14-60 | the records are those of the selected users, one each, in listing order |
| ClientFilter.FilterUsers | website/src/page/admin/filterUsers.tsx:9-62 | as the Lambda filter, except that organisationName is never set and only id, names and email are required of a kept user |
| LambdaCreate.Run | infrastructure/lambda/manageUsers/createUsers.ts:42-90 | the batch keeps its length and every pushed reference points into it |
| LambdaCreate.RunKeepsRecords | infrastructure/lambda/manageUsers/createUsers.ts:65-72 | only ids and `isNew` flags change; every record keeps its email and other fields |
| LambdaCreate.CreateUsersResult | infrastructure/lambda/manageUsers/createUsers.ts:25-93 | an unparsable body throws "Invalid body format: " and the parser's message; an empty batch throws ManageUsersError("Unable to create users", "No users supplied"); a non-empty batch returns exactly when every record was created, and otherwise throws a ManageUsersError with a non-empty message |
| LambdaCreate.CreateUsers | infrastructure/lambda/manageUsers/createUsers.ts:10-94 | the loop computes exactly the specified result |
| LambdaCreate.CreateEach | infrastructure/lambda/manageUsers/createUsers.ts:42-90 | the per-record loop ends in the state `Run` specifies: ids and `isNew` patched, positions pushed, message and details as left by the failures |
| LambdaCreate.LastFailure | infrastructure/lambda/manageUsers/createUsers.ts:73-79 | the last failing record among the first n, or -1 iff none failed |
| LambdaCreate.LastFailureWins | infrastructure/lambda/manageUsers/createUsers.ts:74-79 | the message is the last failing record's message ("User … already exists" or the generic one) and is non-empty iff some record failed |
| LambdaCreate.AllCreatedPrefix | infrastructure/lambda/manageUsers/createUsers.ts:42-72 | with distinct emails and all calls successful, each record in turn gets its subject id and `isNew` false and is pushed in order |
| LambdaCreate.AllCreatedReturnsPersistedBatch | infrastructure/lambda/manageUsers/createUsers.ts:42-93 | with distinct emails and all calls successful, the whole batch is returned in order with subject ids and `isNew` false |
| LambdaCreate.DuplicateEmailReturnsFirstRecordTwice | infrastructure/lambda/manageUsers/createUsers.ts:68-72 | two records sharing an email: the first record, carrying the second subject id, is returned twice and the second record never |
| LambdaCreate.ExistingSecondEmail | infrastructure/lambda/manageUsers/createUsers.ts:74-76 | a taken email throws with "User <email> already exists" and empty details |
| LambdaCreate.DetailLines | infrastructure/lambda/manageUsers/createUsers.ts:73-86 | one detail entry per record seen |
| LambdaCreate.DetailsAreFailureLines | infrastructure/lambda/manageUsers/createUsers.ts:73-86 | the details are "Error adding user <email>\n" for each generic failure, in record order; a taken username adds nothing |
| LambdaCreate.CreateFailureThrown | infrastructure/lambda/manageUsers/createUsers.ts:42-92 | when some record failed, the call throws a ManageUsersError whose message is the last failing record's and whose details are the failure lines in order |
| LambdaUpdate.UpdateUsersResult | infrastructure/lambda/manageUsers/updateUsers.ts:25-38 | unparsable and empty bodies throw as the create path does; any readable non-empty batch returns |
| LambdaUpdate.UpdateUsers | infrastructure/lambda/manageUsers/updateUsers.ts:40-74 | the loop computes exactly the specified result |
| LambdaUpdate.Pairs | infrastructure/lambda/manageUsers/updateUsers.ts:41 | each record is paired with its own send results |
| LambdaUpdate.Cleared | infrastructure/lambda/manageUsers/updateUsers.ts:58 | clearing `isChanged` keeps the number of records |
| LambdaUpdate.UpdatedAreTheCollectedRecords | infrastructure/lambda/manageUsers/updateUsers.ts:43-60 | the returned records are the input filtered by "has id, names and email and the first send succeeded", in input order, each with `isChanged` false |
| LambdaUpdate.FailureEntries | infrastructure/lambda/manageUsers/updateUsers.ts:63-66 | at most one non-empty entry per record |
| LambdaUpdate.DetailsAreJoinedEntries | infrastructure/lambda/manageUsers/updateUsers.ts:64-66 | the details are the failed records' "Error updating user <id>" entries joined by "\n", with no leading or trailing separator |
| LambdaUpdate.MessageIffFailure | infrastructure/lambda/manageUsers/updateUsers.ts:63-64 | the loop's message is the rejection message iff some record failed, and empty otherwise |
| LambdaUpdate.SecondSendFailureStillReturnsRecord | infrastructure/lambda/manageUsers/updateUsers.ts:57-66 | a record whose second send fails is both returned as updated and named in the details |
| Json.HexRoundTrip | infrastructure/lambda/manageUsers/deleteUsers.ts:48 | a hexadecimal digit reads back as its value |
| Json.UnescapeChar | infrastructure/lambda/manageUsers/deleteUsers.ts:48 | reading one escaped character gives it back and goes on |
| Json.UnescapeEscape | infrastructure/lambda/manageUsers/deleteUsers.ts:48 | reading an escaped string body gives the string back |
| Json.QuoteRoundTrip | infrastructure/lambda/manageUsers/deleteUsers.ts:48 | `JSON.parse` undoes `JSON.stringify` on an id |
| Json.QuoteHasNoLineBreak | infrastructure/lambda/manageUsers/deleteUsers.ts:48 | a quoted id never holds a raw line break |
| Json.EscapeHasNoLineBreak | infrastructure/lambda/manageUsers/deleteUsers.ts:48 | an escaped body never holds a raw line break |
| LambdaDelete.DeleteUsers | infrastructure/lambda/manageUsers/deleteUsers.ts:14-75 | the loop over the set computes exactly the specified result |
| LambdaDelete.DeleteUsersResult | infrastructure/lambda/manageUsers/deleteUsers.ts:59-74 | a return carries the count-dependent message and one deleted id per id of the set; a failure is always a plain Error |
| LambdaDelete.SameDeletedAsBrowser | infrastructure/lambda/manageUsers/deleteUsers.ts:32-43 | the Lambda collects the same deleted ids as the browser-side variant |
| LambdaDelete.MessageIffFailure | infrastructure/lambda/manageUsers/deleteUsers.ts:45 | the loop's message is "Error deleting users" iff some id failed, and empty otherwise |
| LambdaDelete.DetailsAreHeaderAndLines | infrastructure/lambda/manageUsers/deleteUsers.ts:46-51 | the details are empty when nothing failed, otherwise the header followed by one `\n"<id>"` line per failing id, with " (not found)" for unknown ids, in order |
| LambdaDelete.DetailsIffFailure | infrastructure/lambda/manageUsers/deleteUsers.ts:46-48 | the details are empty iff every id was deleted |
| LambdaDelete.NoFailureLines | infrastructure/lambda/manageUsers/deleteUsers.ts:44-51 | no failure, no failure lines |
| LambdaDelete.FailureLineBreaks | infrastructure/lambda/manageUsers/deleteUsers.ts:48-51 | a failure line holds exactly one line break |
| LambdaDelete.OneLinePerFailure | infrastructure/lambda/manageUsers/deleteUsers.ts:44-51 | there is one failure line per failing id |
| LambdaDelete.DetailLinesCountFailures | infrastructure/lambda/manageUsers/deleteUsers.ts:46-51 | the details hold exactly one line break per failing id |
| LambdaDelete.DeleteUsersOutcomes | infrastructure/lambda/manageUsers/deleteUsers.ts:59-74 | the call returns iff every id was deleted, then with the count-dependent message, empty details and the ids in set order; otherwise it throws the JSON of the message, the details and an empty deleted list |
| LambdaDelete.AllDeletedInOrder | infrastructure/lambda/manageUsers/deleteUsers.ts:32-74 | when every distinct id is deleted, the deleted set lists them in order |
| LambdaDelete.SuccessMessageByCount | infrastructure/lambda/manageUsers/deleteUsers.ts:59-65 | "All users successfully deleted" for more than one id, "User successfully deleted" for one and for none |
| LambdaHandler.Handle | infrastructure/lambda/manageUsers/index.ts:23-130 | the status is one of 200, 405, 422, 500, and 405 iff the operation is none of the four |
| LambdaHandler.CreateResponses | infrastructure/lambda/manageUsers/index.ts:47-75 | 200 with the created records iff the batch succeeded, otherwise 422; a ManageUsersError's message and details are kept; a plain error gives an empty object |
| LambdaHandler.UpdateResponses | infrastructure/lambda/manageUsers/index.ts:76-106 | 200 with the collected records iff the body is readable and non-empty; empty and unreadable bodies give 422 |
| LambdaHandler.DeleteResponses | infrastructure/lambda/manageUsers/index.ts:107-124 | 200 with the success outcome iff every distinct id was deleted, otherwise 500 with the thrown error |
| LambdaHandler.DeleteIgnoresRepeats | infrastructure/lambda/manageUsers/index.ts:112 | the body becomes a set, so repeating an id changes nothing (`[A,B,A]` is `[A,B]`) |
| LambdaHandler.DeleteDistinctBodyAsGiven | infrastructure/lambda/manageUsers/index.ts:107-124 | a body without repetitions is deleted as given, in its order |
| LambdaHandler.RetrieveResponses | infrastructure/lambda/manageUsers/index.ts:32-46 | retrieve gives 200 iff the listing call answered and every user of the tenant carries the record's attributes; the body is then the filter's records of exactly the tenant's users, in listing order, each carrying the tenant; otherwise 500 "Error fetching users" |
| LambdaHandler.UnknownOperationResponse | infrastructure/lambda/manageUsers/index.ts:125-129 | an operation other than the four gives 405 "Invalid operation" |
| SdkSaveNewUsers.Run | website/src/page/admin/util/saveNewUsers.tsx:34-77 | the batch keeps its length and each pushed position is a draft already seen |
| SdkSaveNewUsers.Respond | website/src/page/admin/util/saveNewUsers.tsx:79-84 | a rejection message is kept, otherwise the success message iff something was added; the added records are the drafts at the pushed positions |
| SdkSaveNewUsers.SaveNewUsers | website/src/page/admin/util/saveNewUsers.tsx:33-84 | the drafts are patched in place and the response is built from the specified final state |
| SdkSaveNewUsers.AddedAreTheSavedDrafts | website/src/page/admin/util/saveNewUsers.tsx:54-64 | the drafts reported as added are exactly the accepted ones, in input order |
| SdkSaveNewUsers.AddedIffSomeSaved | website/src/page/admin/util/saveNewUsers.tsx:64 | something is reported as added iff some draft was accepted |
| SdkSaveNewUsers.MessageRecordsRejection | website/src/page/admin/util/saveNewUsers.tsx:65-66 | before the response, the message is empty iff no draft was rejected, and the rejection message otherwise |
| SdkSaveNewUsers.SaveNewUsersMessage | website/src/page/admin/util/saveNewUsers.tsx:79-81 | the success message iff there were drafts and all were accepted; the rejection message iff one was rejected; empty iff there were no drafts |
| SdkSaveNewUsers.RunKeepsRecords | website/src/page/admin/util/saveNewUsers.tsx:60-62 | only ids and `isNew` flags change |
| SdkSaveNewUsers.AddedPlusDetailLines | website/src/page/admin/util/saveNewUsers.tsx:34-69 | added drafts plus detail lines number the drafts |
| SdkSaveNewUsers.DetailLineCounts | website/src/page/admin/util/saveNewUsers.tsx:67 | a rejection's detail line adds one line break |
| SdkSaveNewUsers.DuplicateEmailPatchesFirstDraftOnly | website/src/page/admin/util/saveNewUsers.tsx:60-64 | two accepted drafts sharing an email: the first draft ends with the second id, and the second draft is reported unpatched |
| SdkSaveChangedUsers.Run | website/src/page/admin/util/saveChangedUsers.tsx:31-52 | the batch keeps its length and each pushed position is a record already seen |
| SdkSaveChangedUsers.RespondAsWritten | website/src/page/admin/util/saveChangedUsers.tsx:53-57 | as written: any accepted record gives "Changes saved successfully", otherwise the loop's message; the details and the updated records are passed on |
| SdkSaveChangedUsers.Respond | website/src/page/admin/util/saveChangedUsers.tsx:53-57 | corrected: a rejection message is kept; otherwise the success message iff something was updated |
| SdkSaveChangedUsers.SaveChangedUsers | website/src/page/admin/util/saveChangedUsers.tsx:11-58 | the records are patched in place and the response is the as-written one (`RespondAsWritten`) for the final state |
| SdkSaveChangedUsers.UpdatedIffSomeAccepted | website/src/page/admin/util/saveChangedUsers.tsx:44-46 | something is reported as updated iff some record was accepted |
| SdkSaveChangedUsers.MessageRecordsRejection | website/src/page/admin/util/saveChangedUsers.tsx:47-49 | the loop's message is empty iff nothing was rejected |
| SdkSaveChangedUsers.AsWrittenMessage | website/src/page/admin/util/saveChangedUsers.tsx:53-55 | as written, the caller sees the success message iff some record was accepted, whatever was rejected, and otherwise the loop's message |
| SdkSaveChangedUsers.AsWrittenRejectionShown | website/src/page/admin/util/saveChangedUsers.tsx:47-55 | as written, the success message iff some record was accepted; the rejection message iff records were sent and every one was rejected |
| SdkSaveChangedUsers.SaveChangedUsersMessage | website/src/page/admin/util/saveChangedUsers.tsx:53-55 | corrected: "Changes saved successfully" iff there were records and all were accepted; the rejection message iff one was rejected; empty iff there were none |
| SdkSaveChangedUsers.AcceptedRecordsAreClean | website/src/page/admin/util/saveChangedUsers.tsx:44 | only the `isChanged` flags of accepted records change, each to false |
| SdkSaveChangedUsers.UpdatedPlusDetailLines | website/src/page/admin/util/saveChangedUsers.tsx:31-52 | updated records plus detail lines number the records |
| SdkSaveChangedUsers.DetailLineCounts | website/src/page/admin/util/saveChangedUsers.tsx:49 | a rejection's detail line adds one line break |
| SdkSaveChangedUsers.AsWrittenHidesRejection | website/src/page/admin/util/saveChangedUsers.tsx:53-54 | as written: one accepted and one rejected record report "Changes saved successfully" while the details name the rejected one and the corrected reply reports the rejection |
| SdkDeleteUsers.DeleteUsers | website/src/page/admin/util/deleteUsers.tsx:32-66 | the loop computes exactly the specified response: the loop's state, or the all-deleted message when every id was deleted |
| SdkDeleteUsers.FirstFailure | website/src/page/admin/util/deleteUsers.tsx:53-55 | the first generically failing id, or -1 iff there is none |
| SdkDeleteUsers.DeletedCount | website/src/page/admin/util/deleteUsers.tsx:32-62 | every deleted id was selected, and as many were deleted as selected iff every id was deleted |
| SdkDeleteUsers.LoopMessage | website/src/page/admin/util/deleteUsers.tsx:45-55 | the refresh message once any id was unknown, otherwise the message naming the first generic failure, otherwise empty |
| SdkDeleteUsers.DetailsIffNotFound | website/src/page/admin/util/deleteUsers.tsx:49 | the details are non-empty iff some id was unknown |
| SdkDeleteUsers.DeleteUsersMessage | website/src/page/admin/util/deleteUsers.tsx:60-64 | "All users successfully deleted" iff every id was deleted (including none), otherwise the loop's state unchanged |
| SdkDeleteUsers.DetailLinesCountNotFound | website/src/page/admin/util/deleteUsers.tsx:49 | one detail line per unknown id |
| SdkDeleteUsers.DetailLineCounts | website/src/page/admin/util/deleteUsers.tsx:49 | a not-found line adds one line break |
| ClientSaveNewUsers.CreateRequest | website/src/page/admin/util/saveNewUsers.ts:39-47 | the payload carries operation "create", the tenant, the pool and the users |
| ClientSaveNewUsers.ReadCreateReply | website/src/page/admin/util/saveNewUsers.ts:60-82 | only status 200 succeeds, with "New users created successfully" and empty details; every other status throws a ManageUsersError |
| ClientSaveNewUsers.CreateReplyMapping | website/src/page/admin/util/saveNewUsers.ts:60-82 | 200 gives "New users created successfully", empty details and the body's `usersAdded`, which is undefined unless the body is an object carrying it; 422 throws the body's message and details, with an empty message for an array or string body; 403 and other codes throw their fixed ManageUsersErrors |
| ClientSaveNewUsers.EmptyListMakesNoCall | website/src/page/admin/util/saveNewUsers.ts:37 | an empty list returns undefined without invoking |
| ClientSaveNewUsers.OneCallWithCreatePayload | website/src/page/admin/util/saveNewUsers.ts:37-86 | a non-empty list depends only on the answer to the create payload, and an invocation error is rethrown unchanged |
| ClientDeleteUsers.DeleteRequest | website/src/page/admin/util/deleteUsers.ts:37-46 | the payload carries operation "delete" and the set's ids as an array |
| ClientDeleteUsers.ReadDeleteReply | website/src/page/admin/util/deleteUsers.ts:58-67 | the body's message, empty details, and the body's deleted ids as a set, empty when the body lacks them |
| ClientDeleteUsers.DeleteReplyMapping | website/src/page/admin/util/deleteUsers.ts:48-71 | the outcome keeps the body's message, has empty details and holds exactly the body's deleted ids, none when the body lacks them; an invocation error is rethrown |
| ClientDeleteUsers.DistinctReplyKeepsOrder | website/src/page/admin/util/deleteUsers.ts:65 | a reply listing distinct ids gives them back in the same order |
| AdminPage.Draft | website/src/page/admin/AdminPanel.tsx:121-132 | a draft has empty names and email, the tenant and organisation, `isNew` true, `isChanged` and `isValid` false |
| AdminPage.Assign | website/src/page/admin/AdminPanel.tsx:144 | `Object.assign` copies every field, an absent organisation name leaving the old one |
| AdminPage.WithChanges | website/src/page/admin/AdminPanel.tsx:141-145 | fails iff no user has the id, otherwise keeps the length |
| AdminPage.MergeCreated | website/src/page/admin/AdminPanel.tsx:171-183 | every user is merged with the added users, position by position |
| AdminPage.MergeUpdated | website/src/page/admin/AdminPanel.tsx:208-221 | every user is merged with the updated users, position by position |
| AdminPage.ErrorStatus | website/src/page/admin/AdminPanel.tsx:188-193 | a ManageUsersError shows its own message, any other error the generic one |
| AdminPage.CreatePhase | website/src/page/admin/AdminPanel.tsx:164-196 | nothing to create leaves the list; a failure ends with its status; an undefined answer or one without `usersAdded` ends with "Unknown error saving new users"; success records the message and changes only ids and `isNew` |
| AdminPage.UpdatePhase | website/src/page/admin/AdminPanel.tsx:199-232 | nothing to update leaves the progress; a failure ends with its status; success appends the message after "; " and changes only `isChanged` |
| AdminPage.SaveNewUsersStep | website/src/page/admin/AdminPanel.tsx:164-196 | the page's create half, merging record by record, computes the specified phase |
| AdminPage.SaveChangedUsersStep | website/src/page/admin/AdminPanel.tsx:199-233 | the page's update half, merging record by record, computes the specified phase |
| AdminPage.SaveChangesEffect | website/src/page/admin/AdminPanel.tsx:156-250 | nothing to send gives "No changes to write"; a completed save keeps the number of users and happens only when something was sent |
| AdminPage.SpliceOne | website/src/page/admin/AdminPanel.tsx:277-282 | `splice(k, 1)` removes position k, and -1 removes the last user |
| AdminPage.SpliceDeleted | website/src/page/admin/AdminPanel.tsx:275-283 | the loop's list equals `RemoveDeleted` over every returned id, in order |
| AdminPage.RemoveDeleted | website/src/page/admin/AdminPanel.tsx:276-283 | each returned id removes exactly one user while any are left |
| AdminPage.Remove | website/src/page/admin/AdminPanel.tsx:257 | `Set.delete`: holds exactly the other ids |
| AdminPage.RemoveKeepsDistinct | website/src/page/admin/AdminPanel.tsx:257 | removing an id keeps the set free of repeats |
| AdminPage.ToggleTwiceRestores | website/src/page/admin/AdminPanel.tsx:253-262 | toggling a row twice restores the marked set |
| AdminPage.RemoveAbsentAppended | website/src/page/admin/AdminPanel.tsx:257-260 | adding then deleting an unmarked id restores the set exactly |
| AdminPage.SaveSendsValidated | website/src/page/admin/AdminPanel.tsx:161-162 | exactly the `isNew && isValid` users go to create and the `isChanged && isValid` users to update |
| AdminPage.SaveChangesOutcomes | website/src/page/admin/AdminPanel.tsx:163-250 | status and lists, case by case: "No changes to write", each error status, "Unknown error saving new users" for an unreadable create answer, the fixed success message for both kinds, the call's message for one kind |
| AdminPage.SaveMergesOnlyIdsAndFlags | website/src/page/admin/AdminPanel.tsx:171-221 | a completed save changes local records only in id, `isNew` and `isChanged` |
| AdminPage.CreatedIdMerge | website/src/page/admin/AdminPanel.tsx:173-179 | the first added user with the same email decides the id and `isNew`; an unmatched user is unchanged |
| AdminPage.DeleteRemovesReturnedIds | website/src/page/admin/AdminPanel.tsx:276-283 | with unique ids and every returned id present, splicing removes exactly the users with the returned ids, order kept |
| AdminPage.DropOneMoreId | website/src/page/admin/AdminPanel.tsx:276-283 | dropping one more id is filtering by the longer list |
| AdminPage.SpliceUniqueId | website/src/page/admin/AdminPanel.tsx:277-282 | in a list with unique ids, splicing at `findIndex` removes that user only |
| AdminPage.MissingIdRemovesLastUser | website/src/page/admin/AdminPanel.tsx:277-282 | a returned id naming no user removes the last user |
| AdminPage.AdminPanel.constructor | website/src/page/admin/AdminPanel.tsx:36-45 | empty lists, empty status, no marked rows, delete button disabled, and a snapshot that shares nothing |
| AdminPage.AdminPanel.LoadUsers | website/src/page/admin/AdminPanel.tsx:59-71 | the retrieved users become the working list and, as a copy that shares no record, the snapshot |
| AdminPage.AdminPanel.AddUser | website/src/page/admin/AdminPanel.tsx:114-135 | with no entitlement known nothing changes; with the entitlement used up only the status changes, to the purchase message; otherwise exactly one draft is appended |
| AdminPage.AdminPanel.UpdateUserSetWithChanges | website/src/page/admin/AdminPanel.tsx:137-150 | the user with the id is overwritten and the others kept; an unknown id reports "Error updating user"; a snapshot that shares the records takes the edit and stays the working list's prefix, and one held as a copy is untouched |
| AdminPage.AdminPanel.SaveChanges | website/src/page/admin/AdminPanel.tsx:156-251 | status, working list and snapshot are those of the save's effect; after a save of both kinds the snapshot shares the records (unless the page copies), after a save of one kind it is a copy, and a failed save or no changes keep the sharing |
| AdminPage.AdminPanel.DeleteToggle | website/src/page/admin/AdminPanel.tsx:253-264 | the id leaves or joins the marked set; the button is disabled iff the set is empty |
| AdminPage.AdminPanel.DeleteSelected | website/src/page/admin/AdminPanel.tsx:266-299 | on success the returned ids are spliced out, both lists replaced by the one array so the snapshot shares the records (unless the page copies), the reply's message shown, the set cleared and the button disabled; on failure only the status changes, to the error's message |
| AdminPage.AdminPanel.Cancel | website/src/page/admin/AdminPanel.tsx:301-303 | the working list becomes a copy of the snapshot that shares nothing; after a shared commit that is the working list without the drafts added since, edits included |
| AdminPage.AdminPanel.Commit | website/src/page/admin/AdminPanel.tsx:235-244 | a successful save makes one list the working list and the snapshot, shared or copied, and sets the status |
| AdminPage.AdminPanel.ReportStatus | website/src/page/admin/AdminPanel.tsx:152-154 | the status line shows the message and nothing else changes |
| UserRow.SetField | website/src/page/admin/userRow.tsx:70 | the edited field takes the value and every other field is kept |
| UserRow.MatchesEmailPattern | website/src/page/admin/userRow.tsx:114 | the reference definition: the regular expression `[a-zA-Z0-9.]@(\S)+\.\D` matches somewhere in the text |
| UserRow.DotAheadFinds | website/src/page/admin/userRow.tsx:114 | the scan for `\S+\.\D` succeeds iff such a dot exists |
| UserRow.ScanEmailFinds | website/src/page/admin/userRow.tsx:114-116 | the scan succeeds iff the pattern matches at some position |
| UserRow.ScanDecidesPattern | website/src/page/admin/userRow.tsx:114-116 | the scan decides the unanchored pattern |
| UserRow.Validate | website/src/page/admin/userRow.tsx:111-124 | an email is valid iff the pattern matches, otherwise "Not a valid email address"; other fields are invalid iff empty, with "This field cannot be blank" |
| UserRow.EmailExamples | website/src/page/admin/userRow.tsx:114-116 | `a@b.c` is accepted, `a@b.1` and `@b.c` rejected |
| UserRow.PatternIsUnanchored | website/src/page/admin/userRow.tsx:114 | text around a match keeps it matching |
| UserRow.EditingDraftKeepsFlags | website/src/page/admin/userRow.tsx:53-70 | editing a new user changes only the field |
| UserRow.FirstEditMarksChanged | website/src/page/admin/userRow.tsx:54-57 | the first edit of a persisted user sets `isChanged` and clears `isValid` |
| UserRow.RevertClearsMarks | website/src/page/admin/userRow.tsx:58-64 | as intended, with the identity store's record as the reference: a changed user whose edited field returns to the stored value clears `isChanged` and sets `isValid`, and any other value keeps both |
| UserRow.EditTouchesOneField | website/src/page/admin/userRow.tsx:48-70 | only the edited field and the two flags can change |
| UserRow.UserRowState.constructor | website/src/page/admin/userRow.tsx:29-31 | the row starts with the page's record at its position, unticked and valid |
| UserRow.UserRowState.HandleChange | website/src/page/admin/userRow.tsx:41-75 | the row's record becomes the edited copy, whose revert test reads the page's record at the row's position |
| UserRow.UserRowState.HandleBlur | website/src/page/admin/userRow.tsx:77-109 | the status is cleared; a valid value sets `isValid` and folds the record into the page's list (and a shared snapshot), an unknown id reporting "Error updating user"; an invalid one shows its message and leaves both lists |
| UserRow.UserRowState.HandleDeleteToggle | website/src/page/admin/userRow.tsx:126-133 | the tick follows the checkbox and the page's marked set drops or gains the row's id |
| UserRow.UserRowState.Rerender | website/src/page/admin/userRow.tsx:35-39 | a row rendered with a different record object takes its values and loses its tick |
| AdminScenarios.BlurredValueMasksRevert | website/src/page/admin/userRow.tsx:58-64 | as written: after a blurred rename, typing the stored name keeps the row dirty, and typing the new name again clears it, so the save sends nothing though the page shows the new name |
| AdminScenarios.EditAfterDeleteSurvivesCancel | website/src/page/admin/AdminPanel.tsx:286-303 | as written: load two users, delete the second, rename the first; a cancel keeps the rename |
| AdminScenarios.CopiedSnapshotUndoesEdit | website/src/page/admin/AdminPanel.tsx:286-303 | corrected (the delete stores a copy): the same events end with the first user as loaded |
| AdminUtils.IsInAdminGroup | website/src/page/admin/util/adminUtils.tsx:17-41 | a non-object gives false, and the answer is true, false or undefined |
| JsValues.Includes | website/src/page/admin/util/adminUtils.tsx:22 | `includes` throws a TypeError iff the value is neither an array nor a string; on an array it is true iff some element is the string; a string includes each of its prefixes |
| AdminUtils.SearchGroups | website/src/page/admin/util/adminUtils.tsx:29-36 | the child search answers true or falls through to undefined |
| AdminUtils.SearchGroupsFirstMatch | website/src/page/admin/util/adminUtils.tsx:29-36 | the child search answers true iff some child answers truthily, the first such in order |
| AdminUtils.AdminAnswerHasWitness | website/src/page/admin/util/adminUtils.tsx:17-41 | a true answer has a path to a level whose groups include the admin group and no earlier level holds the property |
| AdminUtils.SearchHasWitness | website/src/page/admin/util/adminUtils.tsx:29-36 | a true child search has such a path |
| AdminUtils.CheckAdmin | website/src/page/admin/util/adminUtils.tsx:5-15 | true iff the group search answers true |
| AdminUtils.ExtractField | website/src/page/admin/util/adminUtils.tsx:43-62 | a non-object gives undefined; a level holding the property gives its value, even a falsy one |
| AdminUtils.SearchFieldFirstMatch | website/src/page/admin/util/adminUtils.tsx:49-57 | the child search returns the first truthy child result, in order, else undefined |
| AdminUtils.FieldAnswerHasWitness | website/src/page/admin/util/adminUtils.tsx:43-62 | the extracted value is stored under the property at the end of a path |
| AdminUtils.SearchFieldHasWitness | website/src/page/admin/util/adminUtils.tsx:49-57 | a child search's value has such a path |
| AdminUtils.InputWidth | website/src/page/admin/util/adminUtils.tsx:120-141 | the width lies in [50, 500] and is the text width plus 16 when that fits |
| SharedConfig.LowerChar | infrastructure/lib/shared.ts:28 | ASCII upper-case letters are lowered, everything else kept |
| SharedConfig.Lower | infrastructure/lib/shared.ts:28 | `toLowerCase` character by character, length kept |
| SharedConfig.LowerIdempotent | infrastructure/lib/shared.ts:28 | lowering twice is lowering once |
| SharedConfig.OrDefault | infrastructure/lib/shared.ts:41 | `x \|\| fallback`: an absent or empty value falls back |
| SharedConfig.TrimStart | infrastructure/lib/shared.ts:46-51 | `parseInt` skips leading white space |
| SharedConfig.Decimal | infrastructure/lib/shared.ts:46-51 | a numeral of digits without leading zero |
| SharedConfig.DecimalValue | infrastructure/lib/shared.ts:46-51 | a numeral's digits read back its value |
| SharedConfig.DigitRunOfNumeral | infrastructure/lib/shared.ts:46-51 | the digit run of a numeral followed by a non-digit is the numeral |
| SharedConfig.MagnitudeOfNumeral | infrastructure/lib/shared.ts:46-51 | a decimal numeral reads as its value |
| SharedConfig.ParseIntReadsNumeral | infrastructure/lib/shared.ts:46-51 | `parseInt` reads a numeral, signed or not, and stops at the first non-digit |
| SharedConfig.ParseIntNegative | infrastructure/lib/shared.ts:46-51 | a minus sign negates the magnitude |
| SharedConfig.TrimStartKeeps | infrastructure/lib/shared.ts:46-51 | text starting with a sign or digit is not trimmed |
| SharedConfig.ParseIntDecimal | infrastructure/lib/shared.ts:46-51 | `parseInt` of a numeral is its value |
| SharedConfig.ParseIntSkipsWhiteSpace | infrastructure/lib/shared.ts:46-51 | leading white space does not change the result |
| SharedConfig.TrimStartSkips | infrastructure/lib/shared.ts:46-51 | trimming removes leading white space |
| SharedConfig.ParseIntNaN | infrastructure/lib/shared.ts:46-51 | text not starting with a sign, digit or white space gives NaN |
| SharedConfig.ParseInt | infrastructure/lib/shared.ts:46-51 | blank text gives NaN; a negative result needs a leading minus sign |
| SharedConfig.FlagIffSpellsTrue | infrastructure/lib/shared.ts:28 | a flag is set iff its variable is present and spells "true" in any letter case |
| SharedConfig.ConfigurationErrors | infrastructure/lib/shared.ts:57-75 | fails iff readable is on without a region or the repository is missing, with the region error winning |
| SharedConfig.GetSharedConfiguration | infrastructure/lib/shared.ts:26-81 | fails only with the region or the repository error; a returned configuration names a repository, and a region whenever readable is on |
| SharedConfig.ConfigurationDefaults | infrastructure/lib/shared.ts:46-76 | branch "main", the built-in connection ARN and lifecycles of 7 and 3 days when the variable is unset or empty |
| SharedConfig.DefaultLifecycles | infrastructure/lib/shared.ts:46-51 | "7" and "3" parse to 7 and 3 |
| SharedConfig.ConfigurationSwitches | infrastructure/lib/shared.ts:28-62 | each of the nine switches is on iff its variable spells "true" |
| SharedConfig.ConfigurationSpelling | infrastructure/lib/shared.ts:33-81 | domain and region lowered; MFA lowered, or "off" when unset or empty; SAML URL, certificate, repository and a non-empty branch kept as written |
| TopNavigation.Toggle | website/src/page/partial/topNavigation.tsx:56-67 | the modes and unset go to a mode; any other value becomes undefined |
| TopNavigation.Icon | website/src/page/partial/topNavigation.tsx:46-54 | "star-filled" iff light, "star" iff dark, "star-half" otherwise |
| TopNavigation.ToggleCycles | website/src/page/partial/topNavigation.tsx:58-65 | three presses return to a mode through the two others |
| TopNavigation.IconFollowsToggle | website/src/page/partial/topNavigation.tsx:46-65 | each press changes the icon; unset looks and toggles as automatic |
| TopNavigation.FirstLoaded | website/src/page/partial/topNavigation.tsx:16-25 | nothing iff no extension loads, otherwise the first that loads |
| TopNavigation.GetLogo | website/src/page/partial/topNavigation.tsx:13-30 | png if it loads, else svg if it loads, else "" |
| SideNavigation.NavigationItems | website/src/page/partial/sideNavigation.tsx:20-80 | throws iff the admin check throws, otherwise the menu for the features and the user |
| SideNavigation.MenuLayout | website/src/page/partial/sideNavigation.tsx:22-80 | translation group iff translation, divider iff both, readable group iff readable, administration iff admin, in that order |
| SideNavigation.AdminSectionIffInGroup | website/src/page/partial/sideNavigation.tsx:20-80 | the administration section iff the group search answers true |
| SideNavigation.OnFollow | website/src/page/partial/sideNavigation.tsx:86-106 | external links are left to the browser; a readable-view link loads a page iff the view is already open; other links are navigated to unchanged |
| SideNavigation.ReadableViewTargetsNewJob | website/src/page/partial/sideNavigation.tsx:90-102 | a readable-view link goes to the view with the new job id in its query |
| SideNavigation.MenuLinksNavigate | website/src/page/partial/sideNavigation.tsx:23-104 | every menu link stays in the application |
| SideNavigation.OtherLinksAreNotTheView | website/src/page/partial/sideNavigation.tsx:31-76 | no other menu address starts with the readable view's |
| AppRoutes.OptionalPath | website/src/appRoutes.tsx:21 | optional chaining: undefined or null on the way gives undefined |
| AppRoutes.Routes | website/src/appRoutes.tsx:20-55 | throws iff defined groups cannot be searched, otherwise the table with the admin route iff the groups include "TenantAdmins" |
| AppRoutes.RootRoute | website/src/appRoutes.tsx:25-39 | "/" shows translation history with translation, readable history with readable alone, nothing otherwise |
| AppRoutes.RootListedOnce | website/src/appRoutes.tsx:25-39 | "/" is never listed twice |
| AppRoutes.FixedRoutes | website/src/appRoutes.tsx:51-52 | "/help/" and "/signout/" are always reachable |
| AppRoutes.FeatureRoutes | website/src/appRoutes.tsx:25-47 | the translation routes iff translation, the readable routes iff readable |
| AppRoutes.AdminRouteIffTenantAdmin | website/src/appRoutes.tsx:48-50 | "/admin/" iff the groups are defined and include "TenantAdmins" |
| AppRoutes.OptionalPathReadsNested | website/src/appRoutes.tsx:21 | following a path reads back what is stored along it |
| AppRoutes.AdminRouteExamples | website/src/appRoutes.tsx:21-50 | a token listing the group reaches "/admin/"; a user without a session does not |
| ManageUsersRoundTrip.DeliveredBody | infrastructure/lambda/manageUsers/index.ts:36-124 | after serialisation an array stays an array and a string a string; no object body carries `usersAdded` |
| ManageUsersRoundTrip.Delivered | website/src/page/admin/util/saveNewUsers.ts:52-59 | the browser sees the handler's status code, and its parsed body never carries `usersAdded` |
| ManageUsersRoundTrip.AsWrittenCreateReplies | website/src/page/admin/util/saveNewUsers.ts:60-76 | as written, a create success reads as the success message without records, and every create failure as a ManageUsersError with an empty message |
| ManageUsersRoundTrip.AsWrittenSaveOnPage | website/src/page/admin/AdminPanel.tsx:164-196 | as written, a save with drafts through the handler never completes: all created gives "Unknown error saving new users", a failure an empty status, and the lists keep their placeholder ids |
| ManageUsersRoundTrip.IntendedCreateReply | infrastructure/lambda/manageUsers/index.ts:54-67 | corrected reply: status 200 iff the batch succeeded, 422 otherwise |
| ManageUsersRoundTrip.IntendedCreateRoundTrip | website/src/page/admin/util/saveNewUsers.ts:60-76 | corrected: the client reads the created records on success, and the thrown error's message (with its details for a ManageUsersError) on failure |
| ManageUsersRoundTrip.IntendedSaveOnPage | website/src/page/admin/AdminPanel.tsx:164-186 | corrected: all created gives "New users created successfully" with the directory's ids merged by email; a failure shows the error's own non-empty message |
| ManageUsersRoundTrip.DeleteRoundTrip | website/src/page/admin/util/deleteUsers.ts:48-67 | when every id is deleted the page gets the handler's outcome unchanged; otherwise an empty message and no deleted ids |

## Left out

- Directory, Lambda and marketplace calls are not modelled. Their answers are parameters: one outcome per record or id, or a function from request to reply.
- Credentials, clients, regions and the second us-east-1 client in `updateUsers` are not modelled; each send is one outcome.
- `console` logging, `async`/`await` and React rendering are not modelled. React state setters become field assignments.
- `JSON.parse` of a request body is an input that is either parsed or unparsable with a reason. Only `JSON.stringify` of a string (the deleted id) is modelled character by character.
- An `Error` thrown without a message ("unknown error occurred") is not distinguished from one with a message.
- The browser's `retrieveUsers`, `getEntitlement` and the amplify configuration are I/O wrappers and are not modelled. The page's entitlement is an optional user count, and its retrieved users are a parameter.
- The Lambda's `retrieveUsers` is modelled as the directory's listing (a parameter, `None` when the call threw) passed through `LambdaFilter.Filtered`. The listing's page size of 20 and the missing pagination are part of that parameter.
- The handler's trailing list-users block is unreachable, because every switch branch returns, so it is not modelled.
- `adjustInputWidth` measures text in the DOM. Only its clamp is modelled (`InputWidth`).
- The row's width resizing in `handleChange` and the table's column resizing are DOM effects and are not modelled.
- `structuredClone` is modelled as a value copy, and records are values. Three places where shared record objects change results are modelled explicitly, listed in the next three lines.
- First, in `SdkSaveNewUsers.SaveNewUsers`, records pushed before they are patched are recorded as positions.
- Second, the row's `user` is the page's record, so `UserRowState.HandleChange` reads `page.users` for the revert test. `RevertClearsMarks` states the intended test against the store's record.
- Third, after a delete or a save of both kinds the snapshot shares the working list's records (`snapshotShared`). `AdminPanel.UpdateUserSetWithChanges` writes through to it, so `AdminPanel.Cancel` keeps those edits.
- The page's create goes through the Lambda client (`saveNewUsers.ts`, the three-argument call at AdminPanel.tsx line 166), whose records travel as JSON and come back as new objects, so it writes nothing into the page's records. `saveNewUsers.tsx` and `deleteUsers.tsx` are browser SDK variants that the page does not import; they are modelled on their own (`SdkSaveNewUsers`, `SdkDeleteUsers`).
- The one in-place write into the page's records is `isChanged = false` on each accepted record (saveChangedUsers.tsx line 44), and it is not modelled. `saveChangedUsers` catches every send's error, and only the client construction before its loop can throw, so once a record is written the function returns and the page commits; its merge then gives the same records the same `isChanged` value, and the commit replaces the snapshot.
- Object identity is not modelled, so the row's reset effect (`UserRowState.Rerender`) is a step the caller takes when the page gives the row a different record object.
- The `!logo.src` fallback of `getLogo` (topNavigation.tsx lines 26-28) only changes a non-string module value, and a loaded logo is a string here.
- LambdaFilter.FilterUsers: a kept user missing one of the record's attributes makes the code fault on a force-unwrap. The method requires those attributes instead; users of other tenants need none. The handler's retrieve branch models the fault: it answers 500, as its catch does.
- ClientFilter.FilterUsers: requires id, names and email of a kept user, for the same reason.
- SharedConfig.Lower: lowers ASCII letters only, not the full Unicode case mapping of `toLowerCase`.
- SharedConfig.ParseIntDecimal: `parseInt` results are unbounded integers, with `None` for NaN; the loss of precision beyond 2^53 is not modelled.
- `process.env` is a map from names to strings.
- `features.json` switches are plain booleans; truthiness of other JSON values is not modelled.
- The visual-mode hook and its storage are not modelled. The mode it returns is the input of `Toggle` and `Icon`.
- The header's user name (`Object.values(user).toString()`) and all translated texts are not modelled; menu texts are the translation keys.
- `ReadableCreateJob` creates a job on a remote service. Its job id is a parameter of `OnFollow`.
- `window.location` and `navigate` become the `Follow` result.
- `Object.values` on primitives and the property lookup through prototypes are not modelled. A property read on a string, number or boolean is `undefined`.
- `includes` on a value that is neither an array nor a string throws a `TypeError` in the model; objects with their own `includes` member are not modelled.
- ClientSaveNewUsers.ReadCreateReply: a 422 body without `details` is read as the empty string, where the code stores `undefined`; the page only logs it.
- ClientSaveNewUsers.CreateReplyMapping: reads a missing `details` as the empty string, as `ReadCreateReply` does.
- ClientDeleteUsers.ReadDeleteReply: a body without `message` is read as the empty string, where the page's status would hold `undefined`, which shows blank. A string body is read like an empty object, where assigning `details` to it would throw; the handler never sends one for a delete.
- ManageUsersRoundTrip.DeliveredBody: the `name` field that a serialised ManageUsersError carries is dropped, since the browser never reads it.
- The `typeExtensions` files and `classes.ts` are used only as the source of the datatypes.
- The CDK stack files, `userTable.tsx`, `useDeleteUsers.tsx`, `App.tsx`, the two `TranslationAdmin` pages and the diagram script are not part of this model.

## Findings

| source | as written | input that shows it | evidently intended | confidence | as-written member | corrected member |
|---|---|---|---|---|---|---|
| infrastructure/lambda/manageUsers/index.ts:54-57 | a create success returns the bare array of records as the body. The client reads `body.usersAdded` (saveNewUsers.ts line 63), which is undefined, and the page reads its `length` (AdminPanel.tsx line 169), which throws a TypeError | one draft that the directory creates: the page reports "Unknown error saving new users" and the draft keeps its placeholder id | return `{ usersAdded }`, so that the page merges the subject ids and reports "New users created successfully" | not executed | ManageUsersRoundTrip.AsWrittenSaveOnPage | ManageUsersRoundTrip.IntendedSaveOnPage |
| infrastructure/lambda/manageUsers/index.ts:61-67 | a create failure returns its message and details as JSON text. The client reads `body.message` and `body.details` of a string, which are undefined, and throws a ManageUsersError with an empty message | one draft whose email is taken: the page shows an empty status instead of "User <email> already exists" | return the message and details as an object | not executed | ManageUsersRoundTrip.AsWrittenCreateReplies | ManageUsersRoundTrip.IntendedCreateRoundTrip |
| website/src/page/admin/util/saveChangedUsers.tsx:53-54 | the success test reads `response.message`, which is still "" at that point, so any update success overwrites a rejection message | two records, the first accepted and the second rejected: the caller sees "Changes saved successfully" while the details name the second | test the loop's `responseMessage`, as the create path does, so success is reported only when nothing was rejected | not executed | SdkSaveChangedUsers.AsWrittenHidesRejection | SdkSaveChangedUsers.SaveChangedUsersMessage |
| website/src/page/admin/userRow.tsx:58-64 | the revert test compares with `user[fieldName]`, and `user` is the page's record object, which `updateUserSetWithChanges` (AdminPanel.tsx lines 141-144) overwrote at the last blur | a persisted user "Ann": type "Bob" and leave the field, type "Ann" (the row stays dirty), type "Bob" (the row turns clean) and leave the field: the save sends nothing, the directory keeps "Ann" and the page shows "Bob" | compare with the value held in the identity store | not executed | AdminScenarios.BlurredValueMasksRevert | UserRow.RevertClearsMarks |
| website/src/page/admin/AdminPanel.tsx:286-288 | a delete (and a save of both kinds, lines 236-237) stores the working list itself as the snapshot, so the next fold (lines 141-144) writes into the snapshot's records | load two users, delete the second, rename the first and leave the field, press Cancel: the rename stays | store `structuredClone(usersCopy)`, as line 243 does, so that Cancel returns to the list as the delete left it | not executed | AdminScenarios.EditAfterDeleteSurvivesCancel | AdminScenarios.CopiedSnapshotUndoesEdit |
