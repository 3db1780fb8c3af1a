/** The user-management Lambda's entry point: it dispatches on the event's
    operation to the batch functions and turns their outcome or thrown
    error into a status code and a body. Every branch of the dispatch
    returns, so the listing code after it never runs. */
module LambdaHandler {
  import opened Wrappers
  import opened Collections
  import opened UserModel
  import opened Json
  import LambdaFilter
  import LambdaCreate
  import LambdaUpdate
  import LambdaDelete

  /** An invocation event. `tenantId` is the administrator's tenant, `users`
      the body as the create and update operations read it (after their
      `JSON.parse`), `ids` the body as the delete operation reads it. */
  datatype Event = Event(operation: string, tenantId: string, users: LambdaCreate.Parsed<seq<UserData>>, ids: seq<string>)

  /** The body of a response, in the shapes the handler returns. */
  datatype Body =
    | Users(users: seq<UserData>)
    | Text(text: string)
    | MessageObject(message: string)
    | Outcome(outcome: DeleteUsersOutcome)
    | ErrorObject(error: Error)

  datatype Response = Response(statusCode: int, body: Body)

  /** `JSON.stringify({message, details})`. */
  function MessageDetailsJson(message: string, details: string): string {
    "{\"message\":" + Quote(message) + ",\"details\":" + Quote(details) + "}"
  }

  /** `JSON.stringify({message})`. */
  function MessageJson(message: string): string {
    "{\"message\":" + Quote(message) + "}"
  }

  /** `JSON.stringify` of a plain `Error`: its message is not an own
      enumerable property, so the text is an empty object. */
  const PlainErrorJson := "{}"

  /** The 500 response of the retrieve operation: the listing call threw,
      or the filter faulted on a tenant user without a record attribute. */
  const RetrieveError := Response(500, Text(MessageJson("Error fetching users")))

  /** The 422 response of the create operation for a thrown error. */
  function CreateErrorResponse(e: Error): Response {
    match e
    case ManageUsersError(message, details) => Response(422, Text(MessageDetailsJson(message, details)))
    case PlainError(_) => Response(422, Text(PlainErrorJson))
  }

  /** The 422 response of the update operation for a thrown error: a plain
      error's text is wrapped in a message object. */
  function UpdateErrorResponse(e: Error): Response {
    match e
    case ManageUsersError(message, details) => Response(422, Text(MessageDetailsJson(message, details)))
    case PlainError(_) => Response(422, MessageObject(PlainErrorJson))
  }

  /** What the handler needs from the outside, one field per operation:
      the directory's listing of the pool's users (`None` when the listing
      call threw) and the directory's answer to each call. */
  datatype Directory = Directory(
    listing: Option<seq<ListedUser>>,
    creates: seq<LambdaCreate.CreateOutcome>,
    updates: seq<LambdaUpdate.UpdateAttempt>,
    deletes: seq<DeleteOutcome>)

  /** The directory answers one call per record or id of the event. */
  predicate Answers(ev: Event, dir: Directory) {
    && (ev.users.Parsed? ==> |dir.creates| == |ev.users.value| && |dir.updates| == |ev.users.value|)
    && |dir.deletes| == |Dedup(ev.ids)|
  }

  /** `handler`. */
  function Handle(ev: Event, dir: Directory): (r: Response)
    requires Answers(ev, dir)
    ensures r.statusCode in {200, 405, 422, 500}
    ensures r.statusCode == 405 <==> ev.operation !in {"retrieve", "create", "update", "delete"}
  {
    match ev.operation
    case "retrieve" =>
      (match dir.listing
       case Some(listing) =>
         if LambdaFilter.SelectedAreComplete(listing, ev.tenantId)
         then Response(200, Users(LambdaFilter.Filtered(listing, ev.tenantId, |listing|)))
         else RetrieveError
       case None => RetrieveError)
    case "create" =>
      (match LambdaCreate.CreateUsersResult(ev.users, dir.creates)
       case Success(added) => Response(200, Users(added))
       case Failure(e) => CreateErrorResponse(e))
    case "update" =>
      (match LambdaUpdate.UpdateUsersResult(ev.users, dir.updates)
       case Success(updated) => Response(200, Users(updated))
       case Failure(e) => UpdateErrorResponse(e))
    case "delete" =>
      (match LambdaDelete.DeleteUsersResult(Dedup(ev.ids), dir.deletes)
       case Success(outcome) => Response(200, Outcome(outcome))
       case Failure(e) => Response(500, ErrorObject(e)))
    case _ => Response(405, Text(MessageJson("Invalid operation")))
  }

  /** Create: 200 with the created records exactly when the batch
      succeeded; every failure, including an empty or unreadable body, is a
      422 whose text carries the error's message and details when it is a
      `ManageUsersError`. */
  lemma CreateResponses(ev: Event, dir: Directory)
    requires Answers(ev, dir) && ev.operation == "create"
    ensures var r := Handle(ev, dir);
            var c := LambdaCreate.CreateUsersResult(ev.users, dir.creates);
            && (r.statusCode == 200 <==> c.Success?)
            && (c.Success? ==> r.body == Users(c.value))
            && (c.Failure? ==> r.statusCode == 422)
            && (ev.users == LambdaCreate.Parsed([]) ==> r == Response(422, Text(MessageDetailsJson("Unable to create users", "No users supplied"))))
            && (ev.users.Unparsable? ==> r == Response(422, Text(PlainErrorJson)))
  {
  }

  /** Update: per-record failures are swallowed, so a readable non-empty
      batch always gets 200 with the updated records; only an empty or
      unreadable body is a 422. */
  lemma UpdateResponses(ev: Event, dir: Directory)
    requires Answers(ev, dir) && ev.operation == "update"
    ensures var r := Handle(ev, dir);
            && (r.statusCode == 200 <==> ev.users.Parsed? && ev.users.value != [])
            && (r.statusCode == 200 ==> r.body == Users(LambdaUpdate.Run(ev.users.value, dir.updates, |ev.users.value|).updated))
            && (ev.users == LambdaCreate.Parsed([]) ==> r == Response(422, Text(MessageDetailsJson("Unable to create users", "No users supplied"))))
            && (ev.users.Unparsable? ==> r == Response(422, MessageObject(PlainErrorJson)))
  {
  }

  /** Delete: 200 with the outcome exactly when every distinct id was
      deleted, and 500 with the thrown error otherwise. */
  lemma DeleteResponses(ev: Event, dir: Directory)
    requires Answers(ev, dir) && ev.operation == "delete"
    ensures var r := Handle(ev, dir);
            var ids := Dedup(ev.ids);
            && (r.statusCode == 200 <==> AllWereDeleted(dir.deletes, |ids|))
            && (r.statusCode == 200 ==> r.body == Outcome(DeleteUsersOutcome(LambdaDelete.SuccessMessage(|ids|), "", ids)))
            && (r.statusCode != 200 ==> r.statusCode == 500 && r.body.ErrorObject?)
  {
    LambdaDelete.DeleteUsersOutcomes(Dedup(ev.ids), dir.deletes);
  }

  /** The delete body is read as a set: repeating an id already in it
      changes nothing, so `[A, B, A]` is handled as `[A, B]`. */
  lemma DeleteIgnoresRepeats(ev: Event, dir: Directory, x: string)
    requires x in ev.ids && Answers(ev, dir)
    ensures Answers(ev.(ids := ev.ids + [x]), dir)
    ensures Handle(ev.(ids := ev.ids + [x]), dir) == Handle(ev, dir)
  {
    DedupAbsorbsRepeat(ev.ids, x);
  }

  /** A body without repetitions is deleted as given, in its order. */
  lemma DeleteDistinctBodyAsGiven(ev: Event, dir: Directory)
    requires Answers(ev, dir) && ev.operation == "delete" && Distinct(ev.ids)
    ensures |dir.deletes| == |ev.ids|
    ensures Handle(ev, dir) == match LambdaDelete.DeleteUsersResult(ev.ids, dir.deletes)
                                case Success(o) => Response(200, Outcome(o))
                                case Failure(e) => Response(500, ErrorObject(e))
  {
    DedupOfDistinct(ev.ids);
  }

  /** Retrieve: 200 with the records of exactly the tenant's users, in
      listing order, each carrying the tenant; 500 with a fixed message
      when the listing threw or a tenant user lacks a record attribute. */
  lemma RetrieveResponses(ev: Event, dir: Directory)
    requires Answers(ev, dir) && ev.operation == "retrieve"
    ensures var r := Handle(ev, dir);
            && (r.statusCode == 200 <==> dir.listing.Some? && LambdaFilter.SelectedAreComplete(dir.listing.value, ev.tenantId))
            && (r.statusCode != 200 ==> r == RetrieveError)
    ensures var r := Handle(ev, dir);
            r.statusCode == 200 ==>
              var sel := SelectTenant(dir.listing.value, ev.tenantId);
              && r.body.Users? && |r.body.users| == |sel|
              && forall k :: 0 <= k < |sel| ==>
                   && InTenant(sel[k], ev.tenantId) && LambdaFilter.HasRecordAttributes(sel[k])
                   && r.body.users[k] == LambdaFilter.Record(sel[k])
                   && r.body.users[k].tenantId == ev.tenantId
  {
    if dir.listing.Some? && LambdaFilter.SelectedAreComplete(dir.listing.value, ev.tenantId) {
      var listing := dir.listing.value;
      LambdaFilter.FilteredAreSelectedRecords(listing, ev.tenantId, |listing|);
      assert listing[..|listing|] == listing;
    }
  }

  /** Any operation other than the four is 405 "Invalid operation". */
  lemma UnknownOperationResponse(ev: Event, dir: Directory)
    requires Answers(ev, dir)
    ensures ev.operation !in {"retrieve", "create", "update", "delete"} ==> Handle(ev, dir) == Response(405, Text(MessageJson("Invalid operation")))
  {
  }
}
