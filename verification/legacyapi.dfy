/** The routes of the older `src/botnet.go.old/internal/api/api.go` that
    differ from the current ones: the direct-message conversation query and
    the neighbor DELETE that checks existence first. Its content check,
    truncations, `formatDuration` and `joinFeatures` are the same code as
    the current file's and are modelled once, in `Api`. */
module LegacyApi {
  import opened Wrappers
  import GoStrings
  import NodeService
  import Api

  /** How the conversation route answers. */
  datatype DmAnswer =
    | Rejected(status: int, error: string)
    | Listed(totalPages: int)
    | DivideByZero

  const MissingAuthor: string := "author_id is required as query parameter"

  /** `GET /dm/conversation/:other_agent`: `authorId` is the `author_id`
      query value and `serviceError` what `GetDMConversation` reported for
      a conversation of `total` messages. */
  function DmConversation(authorId: string, serviceError: Option<string>, total: int, pageSize: int): (r: DmAnswer)
    ensures authorId == "" ==> r == Rejected(400, MissingAuthor)
    ensures authorId != "" && serviceError.Some? ==>
      r.Rejected? && r.error == serviceError.value
      && (r.status == 403 <==> GoStrings.Contains(serviceError.value, "access denied"))
      && (r.status == 403 || r.status == 500)
    ensures authorId != "" && serviceError.None? ==> (r.DivideByZero? <==> pageSize == 0)
    ensures r.Listed? ==> authorId != "" && serviceError.None?
    ensures r.Listed? && pageSize > 0 && total >= 0 ==>
      (r.totalPages - 1) * pageSize < total <= r.totalPages * pageSize
  {
    if authorId == "" then Rejected(400, MissingAuthor)
    else match serviceError
      case Some(e) => Rejected(if GoStrings.Contains(e, "access denied") then 403 else 500, e)
      case None => match Api.TotalPages(total, pageSize)
        case None => DivideByZero
        case Some(n) => Listed(n)
  }

  /** An "access denied" anywhere in the service's error makes the answer
      403; every other service error is a 500. */
  lemma AccessDeniedIsForbidden(authorId: string, before: string, after: string, other: string, total: int, pageSize: int)
    requires authorId != ""
    requires !GoStrings.Contains(other, "access denied")
    ensures DmConversation(authorId, Some(before + "access denied" + after), total, pageSize).status == 403
    ensures DmConversation(authorId, Some(other), total, pageSize).status == 500
  {
    GoStrings.ContainsInfix(before, "access denied", after);
  }

  /** `DELETE /neighbors/:id`: 404 and nothing removed for an unknown
      neighbor, otherwise the neighbor is removed and the answer is 200. */
  function DeleteNeighbor(table: NodeService.Table, id: string): (r: Api.Answer)
    ensures id !in table ==> r.status == 404 && r.table == table
    ensures id in table ==> r.status == 200 && id !in r.table && |r.table| == |table| - 1
    ensures forall d :: d in r.table <==> d in table && d != id
    ensures forall d :: d in r.table ==> r.table[d] == table[d]
  {
    match NodeService.GetNeighbor(table, id)
    case None => Api.Answer(404, table)
    case Some(_) => Api.Answer(200, NodeService.RemoveNeighbor(table, id))
  }

  /** The older DELETE leaves the same table as the current one; the two
      answers differ only for an unknown neighbor, 404 against 200. */
  lemma DeleteRoutesAgree(table: NodeService.Table, id: string)
    ensures DeleteNeighbor(table, id).table == Api.DeleteNeighbor(table, id).table
    ensures DeleteNeighbor(table, id).status == Api.DeleteNeighbor(table, id).status <==> id in table
  {
  }
}
