/** The create and delete calls end to end: the handler's response is
    serialised by the Lambda runtime, parsed by the browser, read by the
    client function and handled by the admin page. As written, the handler
    answers a successful create with a bare array and a failed one with a
    JSON string, while the client reads both as objects. */
module ManageUsersRoundTrip {
  import opened Wrappers
  import opened Collections
  import opened UserModel
  import opened LambdaInvoke
  import LambdaCreate
  import LambdaDelete
  import LambdaHandler
  import ClientSaveNewUsers
  import ClientDeleteUsers
  import AdminPage
  import SdkSaveChangedUsers

  /** A response body after `JSON.stringify` by the runtime and
      `JSON.parse` in the browser. A string stays a string; an `Error`
      keeps only its own enumerable fields, which for a plain `Error` is
      none and for a `ManageUsersError` its `details` (and `name`). */
  function DeliveredBody(b: LambdaHandler.Body): (r: ReplyBody)
    ensures b.Users? <==> r.RecordArray?
    ensures b.Text? <==> r.JsonText?
    ensures r.Fields? ==> r.usersAdded.None?
  {
    match b
    case Users(users) => RecordArray(users)
    case Text(text) => JsonText(text)
    case MessageObject(message) => Fields(Some(message), None, None, None)
    case Outcome(o) => Fields(Some(o.message), Some(o.details), None, Some(o.usersDeleted))
    case ErrorObject(e) =>
      match e
      case ManageUsersError(_, details) => Fields(None, Some(details), None, None)
      case PlainError(_) => Fields(None, None, None, None)
  }

  /** The reply the browser parses from a handler response. */
  function Delivered(r: LambdaHandler.Response): (q: Reply)
    ensures q.statusCode == r.statusCode
    ensures BodyUsersAdded(q.body).None?
  {
    Reply(r.statusCode, DeliveredBody(r.body))
  }

  /** As written, whatever the create operation does, the browser cannot
      read it: a success reads as the success message without records,
      and every failure as a `ManageUsersError` with an empty message. */
  lemma AsWrittenCreateReplies(ev: LambdaHandler.Event, dir: LambdaHandler.Directory)
    requires LambdaHandler.Answers(ev, dir) && ev.operation == "create"
    ensures var c := LambdaCreate.CreateUsersResult(ev.users, dir.creates);
            var r := ClientSaveNewUsers.ReadCreateReply(Delivered(LambdaHandler.Handle(ev, dir)));
            && (c.Success? ==> r == Success(NewUsersResponse(ClientSaveNewUsers.CreatedMessage, "", None)))
            && (c.Failure? ==> r == Failure(ManageUsersError("", "")))
  {
    LambdaHandler.CreateResponses(ev, dir);
  }

  /** As written, saving drafts through the Lambda never completes: when
      every draft was created the page reports "Unknown error saving new
      users", and when the create failed it reports an empty status; in
      both cases the lists keep their placeholder ids. */
  lemma AsWrittenSaveOnPage(users: seq<UserData>, tenantId: string, userPoolId: string,
                            ev: LambdaHandler.Event, dir: LambdaHandler.Directory,
                            invoke: Request -> Result<Reply, Error>,
                            create: seq<UserData> -> Result<Option<NewUsersResponse>, Error>,
                            update: seq<UserData> -> Result<SdkSaveChangedUsers.ChangedUsersResponse, Error>)
    requires Filter(users, AdminPage.ToCreate) != []
    requires LambdaHandler.Answers(ev, dir) && ev.operation == "create"
    requires ev.users == LambdaCreate.Parsed(Filter(users, AdminPage.ToCreate))
    requires invoke(ClientSaveNewUsers.CreateRequest(tenantId, userPoolId, Filter(users, AdminPage.ToCreate)))
             == Success(Delivered(LambdaHandler.Handle(ev, dir)))
    requires create(Filter(users, AdminPage.ToCreate))
             == ClientSaveNewUsers.SaveNewUsers(tenantId, userPoolId, Filter(users, AdminPage.ToCreate), invoke)
    ensures var c := LambdaCreate.CreateUsersResult(ev.users, dir.creates);
            var e := AdminPage.SaveChangesEffect(users, create, update);
            && (c.Success? ==> e == AdminPage.SaveEffect(AdminPage.UnknownCreateError, None))
            && (c.Failure? ==> e == AdminPage.SaveEffect("", None))
  {
    AsWrittenCreateReplies(ev, dir);
  }

  /** The create replies as the client reads them: the records under
      `usersAdded`, and a thrown error's message and details as fields. */
  function IntendedCreateReply(c: Result<seq<UserData>, Error>): (q: Reply)
    ensures c.Success? <==> q.statusCode == 200
    ensures c.Failure? ==> q.statusCode == 422
  {
    match c
    case Success(added) => Reply(200, Fields(None, None, Some(added), None))
    case Failure(e) =>
      match e
      case ManageUsersError(message, details) => Reply(422, Fields(Some(message), Some(details), None, None))
      case PlainError(message) => Reply(422, Fields(Some(message), None, None, None))
  }

  /** With the intended replies the client reads what the handler meant:
      the created records on success and the thrown error's message (and
      details) on failure. */
  lemma IntendedCreateRoundTrip(c: Result<seq<UserData>, Error>)
    ensures var r := ClientSaveNewUsers.ReadCreateReply(IntendedCreateReply(c));
            && (c.Success? ==> r == Success(NewUsersResponse(ClientSaveNewUsers.CreatedMessage, "", Some(c.value))))
            && (c.Failure? ==> r.Failure? && r.error.message == c.error.message)
            && (c.Failure? && c.error.ManageUsersError? ==> r.error == c.error)
  {
  }

  /** With the intended replies a save of drafts alone completes: when
      every draft was created the page reports the success message and
      takes the directory's ids for the drafts, and when the create failed
      it reports the error's own message. */
  lemma IntendedSaveOnPage(users: seq<UserData>, tenantId: string, userPoolId: string,
                           creates: seq<LambdaCreate.CreateOutcome>,
                           invoke: Request -> Result<Reply, Error>,
                           create: seq<UserData> -> Result<Option<NewUsersResponse>, Error>,
                           update: seq<UserData> -> Result<SdkSaveChangedUsers.ChangedUsersResponse, Error>)
    requires Filter(users, AdminPage.ToCreate) != [] && Filter(users, AdminPage.ToUpdate) == []
    requires |creates| == |Filter(users, AdminPage.ToCreate)|
    requires invoke(ClientSaveNewUsers.CreateRequest(tenantId, userPoolId, Filter(users, AdminPage.ToCreate)))
             == Success(IntendedCreateReply(LambdaCreate.CreateUsersResult(LambdaCreate.Parsed(Filter(users, AdminPage.ToCreate)), creates)))
    requires create(Filter(users, AdminPage.ToCreate))
             == ClientSaveNewUsers.SaveNewUsers(tenantId, userPoolId, Filter(users, AdminPage.ToCreate), invoke)
    ensures var c := LambdaCreate.CreateUsersResult(LambdaCreate.Parsed(Filter(users, AdminPage.ToCreate)), creates);
            var e := AdminPage.SaveChangesEffect(users, create, update);
            && (c.Success? ==>
                  && e.status == ClientSaveNewUsers.CreatedMessage && e.saved.Some? && |e.saved.value| == |users|
                  && forall i :: 0 <= i < |users| ==> e.saved.value[i] == AdminPage.WithCreatedId(users[i], c.value))
            && (c.Failure? ==> e == AdminPage.SaveEffect(c.error.message, None) && c.error.message != "")
  {
    var newUsers := Filter(users, AdminPage.ToCreate);
    IntendedCreateRoundTrip(LambdaCreate.CreateUsersResult(LambdaCreate.Parsed(newUsers), creates));
  }

  /** The delete call end to end: when every id is deleted the page gets
      the handler's outcome unchanged; otherwise the thrown error reaches
      the browser as an empty object, which reads as an empty message and
      no deleted ids. */
  lemma DeleteRoundTrip(ev: LambdaHandler.Event, dir: LambdaHandler.Directory)
    requires LambdaHandler.Answers(ev, dir) && ev.operation == "delete"
    ensures var ids := Dedup(ev.ids);
            var r := ClientDeleteUsers.ReadDeleteReply(Delivered(LambdaHandler.Handle(ev, dir)));
            && (AllWereDeleted(dir.deletes, |ids|) ==> r == DeleteUsersOutcome(LambdaDelete.SuccessMessage(|ids|), "", ids))
            && (!AllWereDeleted(dir.deletes, |ids|) ==> r == DeleteUsersOutcome("", "", []))
  {
    var ids := Dedup(ev.ids);
    var response := LambdaHandler.Handle(ev, dir);
    LambdaHandler.DeleteResponses(ev, dir);
    if AllWereDeleted(dir.deletes, |ids|) {
      DedupOfDistinct(ids);
      assert DeliveredBody(response.body) == Fields(Some(LambdaDelete.SuccessMessage(|ids|)), Some(""), None, Some(ids));
    } else {
      assert response.body.ErrorObject?;
      assert BodyMessage(DeliveredBody(response.body)).None? && BodyUsersDeleted(DeliveredBody(response.body)).None?;
    }
  }
}
