/**
 * The request builders of `GroupMeClient` that need no network: the token
 * check of the constructor, the bodies of `create_group`, `update_group` and
 * `send_group_message`, the query parameters of `get_group_messages` and
 * `get_direct_messages_raw`, and the `bulk_like`/`bulk_unlike` tally.
 * A Python `None` argument is `JNull`; the API call behind each bulk item is
 * a function from the call to the error it raises, if any.
 */
module Api {
  import opened Wrappers
  import opened Json

  /** The headers every request carries. */
  datatype Client = Client(token: string, headers: map<string, string>)

  /** The constructor: an empty token is refused with a ValueError. */
  function NewClient(token: string): (r: Result<Client, string>)
    ensures r.Success? <==> token != ""
    ensures r.Failure? ==> r.error == "Token must be provided"
    ensures r.Success? ==> r.value.token == token
    ensures r.Success? ==> "Authorization" in r.value.headers && r.value.headers["Authorization"] == "Bearer " + token
    ensures r.Success? ==> "X-Access-Token" in r.value.headers && r.value.headers["X-Access-Token"] == token
  {
    if token == "" then Failure("Token must be provided")
    else
      Success(Client(token, map[
        "Authorization" := "Bearer " + token,
        "X-Access-Token" := token,
        "User-Agent" := "groupme-cli/1.0",
        "Accept" := "application/json"
      ]))
  }

  /** `body[key] = value` when the optional argument was given (`is not None`). */
  function PutGiven(body: Object, key: string, value: Json): (b: Object)
    ensures value == JNull ==> b == body
    ensures value != JNull ==> b == body[key := value]
  {
    if value != JNull then body[key := value] else body
  }

  /** `bool(x)` for an optional flag that was given. */
  function Coerce(flag: Json): Json {
    if flag == JNull then JNull else JBool(Truthy(flag))
  }

  /** The body of `create_group`. */
  function CreateGroupBody(name: string, description: Json, share: Json): (b: Object)
    ensures b.Keys <= {"name", "description", "share"}
    ensures "name" in b && b["name"] == JStr(name)
    ensures "description" in b <==> description != JNull
    ensures "share" in b <==> share != JNull
    ensures description != JNull ==> b["description"] == description
    ensures share != JNull ==> b["share"] == JBool(Truthy(share))
  {
    var b := PutGiven(map["name" := JStr(name)], "description", description);
    PutGiven(b, "share", Coerce(share))
  }

  /** The body of `update_group`. */
  function UpdateGroupBody(name: Json, description: Json, share: Json, officeMode: Json, imageUrl: Json): (b: Object)
    ensures b.Keys <= {"name", "description", "share", "office_mode", "image_url"}
    ensures "name" in b <==> name != JNull
    ensures "description" in b <==> description != JNull
    ensures "share" in b <==> share != JNull
    ensures "office_mode" in b <==> officeMode != JNull
    ensures "image_url" in b <==> imageUrl != JNull
    ensures name != JNull ==> b["name"] == name
    ensures description != JNull ==> b["description"] == description
    ensures share != JNull ==> b["share"] == JBool(Truthy(share))
    ensures officeMode != JNull ==> b["office_mode"] == JBool(Truthy(officeMode))
    ensures imageUrl != JNull ==> b["image_url"] == imageUrl
  {
    var b := PutGiven(map[], "name", name);
    var b := PutGiven(b, "description", description);
    var b := PutGiven(b, "share", Coerce(share));
    var b := PutGiven(b, "office_mode", Coerce(officeMode));
    PutGiven(b, "image_url", imageUrl)
  }

  /** An update with nothing given sends an empty body. */
  lemma UpdateGroupBodyEmpty(name: Json, description: Json, share: Json, officeMode: Json, imageUrl: Json)
    ensures UpdateGroupBody(name, description, share, officeMode, imageUrl) == map[]
      <==> name == JNull && description == JNull && share == JNull && officeMode == JNull && imageUrl == JNull
  {
    var b := UpdateGroupBody(name, description, share, officeMode, imageUrl);
    if name != JNull { assert "name" in b; }
    if description != JNull { assert "description" in b; }
    if share != JNull { assert "share" in b; }
    if officeMode != JNull { assert "office_mode" in b; }
    if imageUrl != JNull { assert "image_url" in b; }
  }

  /** `min(max(limit, 1), 100)`. */
  function ClampLimit(limit: int): (r: int)
    ensures 1 <= r <= 100
    ensures 1 <= limit <= 100 ==> r == limit
    ensures limit < 1 ==> r == 1
    ensures limit > 100 ==> r == 100
  {
    var atLeastOne := if limit > 1 then limit else 1;
    if atLeastOne < 100 then atLeastOne else 100
  }

  /** `params[key] = value` when the value is truthy. */
  function PutTruthy(params: Object, key: string, value: Json): (p: Object)
    ensures !Truthy(value) ==> p == params
    ensures Truthy(value) ==> p == params[key := value]
  {
    if Truthy(value) then params[key := value] else params
  }

  /** The query of `get_group_messages`. */
  function GroupMessagesParams(limit: int, beforeId: Json, sinceId: Json, afterId: Json): (p: Object)
    ensures p.Keys <= {"limit", "before_id", "since_id", "after_id"}
    ensures "before_id" in p <==> Truthy(beforeId)
    ensures "since_id" in p <==> Truthy(sinceId)
    ensures "after_id" in p <==> Truthy(afterId)
    ensures "limit" in p && p["limit"] == JInt(ClampLimit(limit))
    ensures Truthy(beforeId) ==> p["before_id"] == beforeId
    ensures Truthy(sinceId) ==> p["since_id"] == sinceId
    ensures Truthy(afterId) ==> p["after_id"] == afterId
  {
    var p := PutTruthy(map["limit" := JInt(ClampLimit(limit))], "before_id", beforeId);
    var p := PutTruthy(p, "since_id", sinceId);
    PutTruthy(p, "after_id", afterId)
  }

  /** The query of `get_direct_messages_raw`. */
  function DirectMessagesParams(otherUserId: Json, limit: int, beforeId: Json, sinceId: Json, afterId: Json): (p: Object)
    ensures p.Keys <= {"limit", "other_user_id", "before_id", "since_id", "after_id"}
    ensures "other_user_id" in p <==> Truthy(otherUserId)
    ensures "before_id" in p <==> Truthy(beforeId)
    ensures "since_id" in p <==> Truthy(sinceId)
    ensures "after_id" in p <==> Truthy(afterId)
    ensures "limit" in p && p["limit"] == JInt(ClampLimit(limit))
    ensures Truthy(otherUserId) ==> p["other_user_id"] == otherUserId
    ensures Truthy(beforeId) ==> p["before_id"] == beforeId
    ensures Truthy(sinceId) ==> p["since_id"] == sinceId
    ensures Truthy(afterId) ==> p["after_id"] == afterId
  {
    var p := PutTruthy(map["limit" := JInt(ClampLimit(limit))], "other_user_id", otherUserId);
    var p := PutTruthy(p, "before_id", beforeId);
    var p := PutTruthy(p, "since_id", sinceId);
    PutTruthy(p, "after_id", afterId)
  }

  /** What `send_group_message` does: return the payload, or post it. */
  datatype Send =
    | DryRun(result: Object)
    | Post(path: string, body: Object)

  /**
   * The message payload; `freshGuid` is the `uuid4()` drawn when no
   * source guid is given.
   */
  function MessagePayload(text: string, attachments: Json, sourceGuid: Json, freshGuid: string): (p: Object)
    ensures p.Keys == {"message"} && p["message"].JObj?
    ensures p["message"].fields.Keys == {"source_guid", "text", "attachments"}
    ensures p["message"].fields["text"] == JStr(text)
    ensures p["message"].fields["source_guid"] == (if Truthy(sourceGuid) then sourceGuid else JStr(freshGuid))
    ensures p["message"].fields["attachments"] == (if Truthy(attachments) then attachments else JArr([]))
  {
    map["message" := JObj(map[
      "source_guid" := Or(sourceGuid, JStr(freshGuid)),
      "text" := JStr(text),
      "attachments" := Or(attachments, JArr([]))
    ])]
  }

  function SendGroupMessage(groupId: string, text: string, attachments: Json, sourceGuid: Json,
                            freshGuid: string, dryRun: bool): (s: Send)
    ensures s.DryRun? <==> dryRun
    ensures s.DryRun? ==> s.result == map["dry_run" := JBool(true),
                                          "payload" := JObj(MessagePayload(text, attachments, sourceGuid, freshGuid))]
    ensures s.Post? ==> s.path == "/groups/" + groupId + "/messages"
    ensures s.Post? ==> s.body == MessagePayload(text, attachments, sourceGuid, freshGuid)
  {
    var payload := MessagePayload(text, attachments, sourceGuid, freshGuid);
    if dryRun then DryRun(map["dry_run" := JBool(true), "payload" := JObj(payload)])
    else Post("/groups/" + groupId + "/messages", payload)
  }

  /** `bulk_like` calls `like_message`, `bulk_unlike` calls `unlike_message`. */
  datatype Action = Like | Unlike

  /** One API call made by a bulk helper. */
  datatype Call = Call(action: Action, conversationId: string, messageId: string)

  /** One entry of `errors`. */
  datatype BulkError = BulkError(item: Json, error: string)

  /** The summary dict `{"ok": …, "failed": …, "errors": …}`. */
  datatype Summary = Summary(ok: nat, failed: nat, errors: seq<BulkError>)

  /** Python's name for the type of a value, as it appears in an AttributeError. */
  function TypeName(j: Json): string {
    match j
    case JNull => "NoneType"
    case JBool(_) => "bool"
    case JInt(_) => "int"
    case JStr(_) => "str"
    case JArr(_) => "list"
    case JObj(_) => "dict"
  }

  /** An item naming both a conversation and a message. */
  predicate WellFormed(item: Json) {
    item.JObj? && Truthy(Get(item.fields, "conversation_id")) && Truthy(Get(item.fields, "message_id"))
  }

  /** The call made for a well-formed item; the ids go into the URL with `str()`. */
  function CallOf(action: Action, item: Json): Call
    requires item.JObj?
  {
    Call(action, PyStr(Get(item.fields, "conversation_id")), PyStr(Get(item.fields, "message_id")))
  }

  /**
   * How one item ends: the message of the exception it raises, or None.
   * A non-dict has no `.get`; a missing or empty id is "missing ids"; a
   * well-formed item fails as its API call does.
   */
  function ItemError(action: Action, item: Json, outcome: Call -> Option<string>): Option<string> {
    if !item.JObj? then Some("'" + TypeName(item) + "' object has no attribute 'get'")
    else if !WellFormed(item) then Some("missing ids")
    else outcome(CallOf(action, item))
  }

  /** The call an item causes: one when it is well-formed, none otherwise. */
  function Called(action: Action, item: Json): seq<Call> {
    if WellFormed(item) then [CallOf(action, item)] else []
  }

  /** The entry an item adds to `errors`: one when it fails, none when it succeeds. */
  function Reported(action: Action, item: Json, outcome: Call -> Option<string>): seq<BulkError> {
    match ItemError(action, item, outcome)
    case Some(e) => [BulkError(item, e)]
    case None => []
  }

  /** The outputs of `f` for each item of `s`, concatenated in input order. */
  function Each<X>(f: Json -> seq<X>, s: seq<Json>): seq<X> {
    if s == [] then [] else Each(f, s[..|s| - 1]) + f(s[|s| - 1])
  }

  /** The API calls made, one per well-formed item, in input order. */
  function Calls(action: Action, ids: seq<Json>): seq<Call> {
    Each(item => Called(action, item), ids)
  }

  /** The failed items with their messages, in input order. */
  function Failures(action: Action, ids: seq<Json>, outcome: Call -> Option<string>): seq<BulkError> {
    Each(item => Reported(action, item, outcome), ids)
  }

  /** The best-effort loop: every item is tried, and an exception only marks it failed. */
  method Bulk(action: Action, ids: seq<Json>, outcome: Call -> Option<string>)
    returns (calls: seq<Call>, summary: Summary)
    ensures calls == Calls(action, ids)
    ensures summary.errors == Failures(action, ids, outcome)
    ensures summary.failed == |summary.errors|
    ensures summary.ok + summary.failed == |ids|
  {
    var ok := 0;
    var errors: seq<BulkError> := [];
    calls := [];
    for k := 0 to |ids|
      invariant calls == Calls(action, ids[..k])
      invariant errors == Failures(action, ids[..k], outcome)
      invariant ok + |errors| == k
    {
      var item := ids[k];
      assert ids[..k + 1][..k] == ids[..k];
      if !item.JObj? {
        errors := errors + [BulkError(item, "'" + TypeName(item) + "' object has no attribute 'get'")];
      } else {
        var conv := Or(Get(item.fields, "conversation_id"), JStr(""));
        var mid := Or(Get(item.fields, "message_id"), JStr(""));
        if !Truthy(conv) || !Truthy(mid) {
          errors := errors + [BulkError(item, "missing ids")];
        } else {
          var call := Call(action, PyStr(conv), PyStr(mid));
          calls := calls + [call];
          match outcome(call)
          case Some(e) =>
            errors := errors + [BulkError(item, e)];
          case None =>
            ok := ok + 1;
        }
      }
    }
    assert ids[..|ids|] == ids;
    summary := Summary(ok, |errors|, errors);
  }

  /** Items are handled one at a time, so the outputs split over any split of the input. */
  lemma {:induction false} EachAppend<X>(f: Json -> seq<X>, a: seq<Json>, b: seq<Json>)
    ensures Each(f, a + b) == Each(f, a) + Each(f, b)
  {
    if b == [] {
      assert a + b == a;
    } else {
      EachAppend(f, a, b[..|b| - 1]);
      assert (a + b)[..|a + b| - 1] == a + b[..|b| - 1];
      assert (a + b)[|a + b| - 1] == b[|b| - 1];
    }
  }

  /** Both tallies of a split input are the tallies of its parts, in order. */
  lemma BulkAppend(action: Action, a: seq<Json>, b: seq<Json>, outcome: Call -> Option<string>)
    ensures Calls(action, a + b) == Calls(action, a) + Calls(action, b)
    ensures Failures(action, a + b, outcome) == Failures(action, a, outcome) + Failures(action, b, outcome)
  {
    EachAppend(item => Called(action, item), a, b);
    EachAppend(item => Reported(action, item, outcome), a, b);
  }

  /**
   * Every call names a non-empty conversation and message, and an item that
   * is not well-formed is reported as failed and never called.
   */
  lemma {:induction false} BulkItems(action: Action, ids: seq<Json>, outcome: Call -> Option<string>)
    ensures forall c :: c in Calls(action, ids) ==> c.action == action && c.conversationId != "" && c.messageId != ""
    ensures forall i :: 0 <= i < |ids| && ids[i].JObj? && !WellFormed(ids[i]) ==>
      BulkError(ids[i], "missing ids") in Failures(action, ids, outcome)
    ensures |Calls(action, ids)| <= |ids|
    ensures |ids| - |Failures(action, ids, outcome)| <= |Calls(action, ids)|
  {
    if ids != [] {
      var init := ids[..|ids| - 1];
      var last := ids[|ids| - 1];
      BulkItems(action, init, outcome);
      if WellFormed(last) {
        PyStrEmpty(Get(last.fields, "conversation_id"));
        PyStrEmpty(Get(last.fields, "message_id"));
      }
      forall i | 0 <= i < |ids| - 1 ensures ids[i] == init[i] { }
    }
  }
}
