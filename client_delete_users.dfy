/** The browser's delete call through the Lambda: the selection goes out as
    an array, and the reply's body comes back as an outcome whose deleted
    ids form a set again. The status code is not consulted. */
module ClientDeleteUsers {
  import opened Wrappers
  import opened Collections
  import opened UserModel
  import opened LambdaInvoke

  /** The invocation payload for a delete: the set's ids as an array, in
      the set's order. */
  function DeleteRequest(tenantId: string, userPoolId: string, rowsForDeletion: seq<string>): (q: Request)
    ensures q.operation == "delete" && q.body == UserIds(rowsForDeletion)
  {
    Request(tenantId, userPoolId, "delete", UserIds(rowsForDeletion))
  }

  /** The body's deleted ids; `new Set(undefined)` is empty. */
  function DeletedIds(b: ReplyBody): seq<string> {
    match BodyUsersDeleted(b)
    case Some(ids) => ids
    case None => []
  }

  /** The outcome read from a reply: the body's message, details replaced
      by the empty string, and the body's deleted ids as a set. */
  function ReadDeleteReply(reply: Reply): (r: DeleteUsersOutcome)
    ensures r.message == OrEmpty(BodyMessage(reply.body)) && r.details == ""
    ensures Distinct(r.usersDeleted)
    ensures BodyUsersDeleted(reply.body).None? ==> r.usersDeleted == []
  {
    DeleteUsersOutcome(OrEmpty(BodyMessage(reply.body)), "", Dedup(DeletedIds(reply.body)))
  }

  /** `deleteUsers`: `invoke` stands for sending the payload and parsing the
      reply, or the error either step throws, which is rethrown unchanged. */
  function DeleteUsers(tenantId: string, userPoolId: string, rowsForDeletion: seq<string>,
                       invoke: Request -> Result<Reply, Error>): Result<DeleteUsersOutcome, Error>
  {
    match invoke(DeleteRequest(tenantId, userPoolId, rowsForDeletion))
    case Failure(e) => Failure(e)
    case Success(reply) => Success(ReadDeleteReply(reply))
  }

  /** Whatever the reply, the outcome keeps its message, drops its details,
      and holds exactly the reply's deleted ids, each once; an invocation
      error comes back unchanged. */
  lemma DeleteReplyMapping(tenantId: string, userPoolId: string, rowsForDeletion: seq<string>,
                           invoke: Request -> Result<Reply, Error>)
    ensures var call := invoke(DeleteRequest(tenantId, userPoolId, rowsForDeletion));
            var r := DeleteUsers(tenantId, userPoolId, rowsForDeletion, invoke);
            && (r.Failure? <==> call.Failure?)
            && (call.Failure? ==> r.error == call.error)
            && (call.Success? ==>
                  && r.value.message == OrEmpty(BodyMessage(call.value.body))
                  && r.value.details == ""
                  && Distinct(r.value.usersDeleted)
                  && (forall x :: x in r.value.usersDeleted <==> x in DeletedIds(call.value.body)))
  {
    var call := invoke(DeleteRequest(tenantId, userPoolId, rowsForDeletion));
    if call.Success? {
      var ids := DeletedIds(call.value.body);
      var d := Dedup(ids);
      forall x | x in ids ensures x in d {
        var i :| 0 <= i < |ids| && ids[i] == x;
      }
      forall x | x in d ensures x in ids {
        var i :| 0 <= i < |d| && d[i] == x;
      }
    }
  }

  /** A reply listing distinct ids gives them back in the same order. */
  lemma DistinctReplyKeepsOrder(reply: Reply)
    requires reply.body.Fields? && reply.body.usersDeleted.Some? && Distinct(reply.body.usersDeleted.value)
    ensures ReadDeleteReply(reply).usersDeleted == reply.body.usersDeleted.value
  {
    DedupOfDistinct(reply.body.usersDeleted.value);
  }
}
