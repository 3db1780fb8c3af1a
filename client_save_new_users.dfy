/** The payload the browser sends to the user-management Lambda and the
    reply it reads back. */
module LambdaInvoke {
  import opened Wrappers
  import opened UserModel

  /** The body of a request: the records to create or the ids to delete. */
  datatype RequestBody = UserRecords(users: seq<UserData>) | UserIds(ids: seq<string>)

  /** The JSON payload of one invocation. */
  datatype Request = Request(tenantId: string, userPoolId: string, operation: string, body: RequestBody)

  /** The reply's body after `JSON.parse`, in the shapes it can take: an
      array of records, a string (a body the handler had already turned
      into JSON text), or an object, of whose fields the browser reads
      these four; `None` is a field the object does not carry. */
  datatype ReplyBody =
    | RecordArray(records: seq<UserData>)
    | JsonText(text: string)
    | Fields(message: Option<string>, details: Option<string>,
             usersAdded: Option<seq<UserData>>, usersDeleted: Option<seq<string>>)

  /** The parsed reply payload. */
  datatype Reply = Reply(statusCode: int, body: ReplyBody)

  /** `body.message`: `undefined` on an array or a string. */
  function BodyMessage(b: ReplyBody): Option<string> {
    if b.Fields? then b.message else None
  }

  /** `body.details`. */
  function BodyDetails(b: ReplyBody): Option<string> {
    if b.Fields? then b.details else None
  }

  /** `body.usersAdded`. */
  function BodyUsersAdded(b: ReplyBody): Option<seq<UserData>> {
    if b.Fields? then b.usersAdded else None
  }

  /** `body.usersDeleted`. */
  function BodyUsersDeleted(b: ReplyBody): Option<seq<string>> {
    if b.Fields? then b.usersDeleted else None
  }

  /** A string that may be `undefined`, where `undefined` ends up as the
      empty string (as `new Error(undefined).message` does). */
  function OrEmpty(s: Option<string>): string {
    if s.Some? then s.value else ""
  }
}

/** The browser's create call through the Lambda: no call for an empty
    list; otherwise one invocation, whose status code is mapped to a
    response or a thrown `ManageUsersError`. */
module ClientSaveNewUsers {
  import opened Wrappers
  import opened UserModel
  import opened LambdaInvoke

  const CreatedMessage := "New users created successfully"
  const NoUsersCreated := "No users created"

  /** The invocation payload for a create. */
  function CreateRequest(tenantId: string, userPoolId: string, newUsers: seq<UserData>): (q: Request)
    ensures q.operation == "create" && q.body == UserRecords(newUsers)
    ensures q.tenantId == tenantId && q.userPoolId == userPoolId
  {
    Request(tenantId, userPoolId, "create", UserRecords(newUsers))
  }

  /** The status-code switch over a reply: 200 reads the body's
      `usersAdded`, 422 throws with the body's `message` and `details`. */
  function ReadCreateReply(reply: Reply): (r: Result<NewUsersResponse, Error>)
    ensures r.Success? <==> reply.statusCode == 200
    ensures r.Success? ==> r.value.message == CreatedMessage && r.value.details == ""
    ensures r.Failure? ==> r.error.ManageUsersError?
  {
    match reply.statusCode
    case 200 => Success(NewUsersResponse(CreatedMessage, "", BodyUsersAdded(reply.body)))
    case 403 => Failure(ManageUsersError("Insufficient permissions to create users", NoUsersCreated))
    case 422 => Failure(ManageUsersError(OrEmpty(BodyMessage(reply.body)), OrEmpty(BodyDetails(reply.body))))
    case _ => Failure(ManageUsersError("Failed to create users for reasons unknown", NoUsersCreated))
  }

  /** `saveNewUsers`: `invoke` stands for sending the payload and parsing the
      reply, or the error either step throws, which is rethrown unchanged.
      `None` is the `undefined` returned for an empty list. */
  function SaveNewUsers(tenantId: string, userPoolId: string, newUsers: seq<UserData>,
                        invoke: Request -> Result<Reply, Error>): Result<Option<NewUsersResponse>, Error>
  {
    if |newUsers| == 0 then Success(None)
    else
      match invoke(CreateRequest(tenantId, userPoolId, newUsers))
      case Failure(e) => Failure(e)
      case Success(reply) =>
        match ReadCreateReply(reply)
        case Success(response) => Success(Some(response))
        case Failure(e) => Failure(e)
  }

  /** The status mapping: 200 is the only success, with the success
      message, empty details, and records exactly when the body is an
      object carrying `usersAdded`; 403, 422 and any other status throw a
      `ManageUsersError`, the 422 one carrying the body's message and
      details when the body is an object with both, and an empty message
      when the body is an array or a string. */
  lemma CreateReplyMapping(reply: Reply)
    ensures var r := ReadCreateReply(reply);
            var b := reply.body;
            && (r.Success? <==> reply.statusCode == 200)
            && (r.Success? ==> r.value == NewUsersResponse(CreatedMessage, "", if b.Fields? then b.usersAdded else None))
            && (r.Success? ==> (r.value.usersAdded.Some? <==> b.Fields? && b.usersAdded.Some?))
            && (r.Failure? ==> r.error.ManageUsersError?)
            && (reply.statusCode == 422 && b.Fields? && b.message.Some? && b.details.Some? ==>
                  r.error == ManageUsersError(b.message.value, b.details.value))
            && (reply.statusCode == 422 && !b.Fields? ==> r.error == ManageUsersError("", ""))
            && (reply.statusCode == 403 ==> r.error == ManageUsersError("Insufficient permissions to create users", NoUsersCreated))
            && (reply.statusCode != 200 && reply.statusCode != 403 && reply.statusCode != 422 ==>
                  r.error == ManageUsersError("Failed to create users for reasons unknown", NoUsersCreated))
  {
  }

  /** An empty list makes no invocation: the result does not depend on
      what the invocation would have answered. */
  lemma EmptyListMakesNoCall(tenantId: string, userPoolId: string,
                             invoke1: Request -> Result<Reply, Error>, invoke2: Request -> Result<Reply, Error>)
    ensures SaveNewUsers(tenantId, userPoolId, [], invoke1) == Success(None)
    ensures SaveNewUsers(tenantId, userPoolId, [], invoke1) == SaveNewUsers(tenantId, userPoolId, [], invoke2)
  {
  }

  /** A non-empty list makes exactly one invocation, with the create
      payload: invocations that agree on that payload give the same
      result, and a thrown invocation error is passed on unchanged. */
  lemma OneCallWithCreatePayload(tenantId: string, userPoolId: string, newUsers: seq<UserData>,
                                 invoke1: Request -> Result<Reply, Error>, invoke2: Request -> Result<Reply, Error>)
    requires |newUsers| > 0
    requires invoke1(CreateRequest(tenantId, userPoolId, newUsers)) == invoke2(CreateRequest(tenantId, userPoolId, newUsers))
    ensures SaveNewUsers(tenantId, userPoolId, newUsers, invoke1) == SaveNewUsers(tenantId, userPoolId, newUsers, invoke2)
    ensures invoke1(CreateRequest(tenantId, userPoolId, newUsers)).Failure? ==>
              SaveNewUsers(tenantId, userPoolId, newUsers, invoke1) == Failure(invoke1(CreateRequest(tenantId, userPoolId, newUsers)).error)
  {
  }
}
