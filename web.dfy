/**
 * The form handling of `webapp.py`: the message ids of the bulk like and
 * unlike forms, the flags and fields of the group update form, the fields of
 * the add-member form, the other party's name on a DM page, and the user id
 * the watch stream subscribes with. Routing, templates and the HTTP calls
 * are not modelled.
 */
module Web {
  import opened Wrappers
  import opened Seqs
  import opened Text
  import opened Json
  import Api
  import Bayeux

  /**
   * An id as the bulk form yields it: non-empty, stripped, and free of the
   * separators `\r`, `,` and `\n`.
   */
  predicate CleanId(id: string) {
    id != "" && IsStripped(id) && '\r' !in id && ',' !in id && '\n' !in id
  }

  /** The message ids typed into a bulk form, stripped, empty ones dropped, in order. */
  function ParseBulkIds(text: string): seq<string> {
    StrippedParts(Split(Replace(Replace(text, '\r', '\n'), ',', '\n'), '\n'))
  }

  /** Every parsed id is non-empty, stripped and free of separators. */
  lemma BulkIdsClean(text: string)
    ensures forall i :: 0 <= i < |ParseBulkIds(text)| ==> CleanId(ParseBulkIds(text)[i])
  {
    var once := Replace(text, '\r', '\n');
    var twice := Replace(once, ',', '\n');
    ReplaceRemoves(text, '\r', '\n');
    ReplaceKeepsOut(once, ',', '\n', '\r');
    ReplaceRemoves(once, ',', '\n');
    var pieces := Split(twice, '\n');
    SplitAvoids(twice, '\n', '\r');
    SplitAvoids(twice, '\n', ',');
    StrippedPartsAvoid(pieces, '\r');
    StrippedPartsAvoid(pieces, ',');
    StrippedPartsAvoid(pieces, '\n');
  }

  /** Ids that are clean come back unchanged from a comma- or newline-separated list. */
  lemma BulkIdsJoin(ids: seq<string>, sep: char)
    requires sep == ',' || sep == '\n'
    requires forall i :: 0 <= i < |ids| ==> CleanId(ids[i])
    ensures ParseBulkIds(Join(ids, sep)) == ids
  {
    if ids == [] {
      assert Split("", '\n') == [""];
    } else {
      var lines := Replace(Replace(Join(ids, sep), '\r', '\n'), ',', '\n');
      BulkIdsLines(ids, sep);
      assert lines == Join(ids, '\n');
      assert forall i :: 0 <= i < |ids| ==> '\n' !in ids[i];
      SplitJoin(ids, '\n');
      assert Split(lines, '\n') == ids;
      assert forall i :: 0 <= i < |ids| ==> ids[i] != "" && IsStripped(ids[i]);
      StrippedPartsOfClean(ids);
    }
  }

  /** Replacing the separators of a list of clean ids by newlines gives the newline-separated list. */
  lemma BulkIdsLines(ids: seq<string>, sep: char)
    requires sep == ',' || sep == '\n'
    requires forall i :: 0 <= i < |ids| ==> CleanId(ids[i])
    ensures Replace(Replace(Join(ids, sep), '\r', '\n'), ',', '\n') == Join(ids, '\n')
  {
    var text := Join(ids, sep);
    assert forall i :: 0 <= i < |ids| ==> '\r' !in ids[i] && ',' !in ids[i];
    JoinAvoidsSep(ids, sep, '\r');
    ReplaceAbsent(text, '\r', '\n');
    if sep == ',' {
      ReplaceJoin(ids, ',', '\n');
    } else {
      JoinAvoidsSep(ids, sep, ',');
      ReplaceAbsent(text, ',', '\n');
    }
  }

  /** A character that is neither the separator nor in any piece is not in the join. */
  lemma {:induction false} JoinAvoidsSep(parts: seq<string>, sep: char, c: char)
    requires c != sep
    requires forall i :: 0 <= i < |parts| ==> c !in parts[i]
    ensures c !in Join(parts, sep)
  {
    if |parts| > 1 {
      JoinAvoidsSep(parts[1..], sep, c);
      assert Join(parts, sep) == parts[0] + [sep] + Join(parts[1..], sep);
    }
  }

  /** One bulk item per id, in order, all in the given conversation. */
  function BulkPayload(conversationId: string, ids: seq<string>): (items: seq<Json>)
    ensures |items| == |ids|
    ensures forall i :: 0 <= i < |ids| ==>
      items[i] == JObj(map["conversation_id" := JStr(conversationId), "message_id" := JStr(ids[i])])
  {
    seq(|ids|, i requires 0 <= i < |ids| =>
      JObj(map["conversation_id" := JStr(conversationId), "message_id" := JStr(ids[i])]))
  }

  /**
   * Submitting the bulk form: with a conversation id, one call per parsed id
   * is made, in order; without one, nothing is called and every id fails.
   */
  lemma {:induction false} BulkFromForm(action: Api.Action, conversationId: string, ids: seq<string>,
                                        outcome: Api.Call -> Option<string>)
    requires forall i :: 0 <= i < |ids| ==> ids[i] != ""
    ensures conversationId != "" ==>
      Api.Calls(action, BulkPayload(conversationId, ids))
        == seq(|ids|, i requires 0 <= i < |ids| => Api.Call(action, conversationId, ids[i]))
    ensures conversationId == "" ==>
      Api.Calls(action, BulkPayload(conversationId, ids)) == []
      && |Api.Failures(action, BulkPayload(conversationId, ids), outcome)| == |ids|
  {
    if ids != [] {
      var n := |ids| - 1;
      var init := ids[..n];
      BulkFromForm(action, conversationId, init, outcome);
      var items := BulkPayload(conversationId, ids);
      assert items[..n] == BulkPayload(conversationId, init);
      assert Api.Calls(action, items) == Api.Calls(action, items[..n]) + Api.Called(action, items[n]);
      assert Api.Failures(action, items, outcome)
        == Api.Failures(action, items[..n], outcome) + Api.Reported(action, items[n], outcome);
    }
  }

  /** The values a flag field of the group update form counts as on. */
  const OnWords := {"1", "true", "yes", "on"}

  /** `value.lower() in {"1", "true", "yes", "on"}`. */
  predicate FormFlag(value: string) {
    Lower(value) in OnWords
  }

  /** The flag rule ignores ASCII case, and a value that is on is never empty. */
  lemma FormFlagCases(value: string)
    ensures FormFlag(value) <==> FormFlag(Lower(value))
    ensures FormFlag(value) ==> value != ""
  {
    LowerLower(value);
  }

  /** Upper-case spellings count as on. */
  lemma FormFlagUpper()
    ensures FormFlag("TRUE") && FormFlag("YES") && FormFlag("ON")
  {
    assert Lower("TRUE") == "true";
    assert Lower("YES") == "yes";
    assert Lower("ON") == "on";
  }

  /**
   * The keyword arguments of `group_update`: each non-empty field, the two
   * flags read through the flag rule, and whether `update_group` is called.
   */
  method GroupUpdate(name: string, description: string, share: string, officeMode: string, imageUrl: string)
    returns (kwargs: Object, called: bool)
    ensures kwargs.Keys <= {"name", "description", "share", "office_mode", "image_url"}
    ensures "name" in kwargs <==> name != ""
    ensures "description" in kwargs <==> description != ""
    ensures "share" in kwargs <==> share != ""
    ensures "office_mode" in kwargs <==> officeMode != ""
    ensures "image_url" in kwargs <==> imageUrl != ""
    ensures name != "" ==> kwargs["name"] == JStr(name)
    ensures description != "" ==> kwargs["description"] == JStr(description)
    ensures share != "" ==> kwargs["share"] == JBool(FormFlag(share))
    ensures officeMode != "" ==> kwargs["office_mode"] == JBool(FormFlag(officeMode))
    ensures imageUrl != "" ==> kwargs["image_url"] == JStr(imageUrl)
    ensures called <==> name != "" || description != "" || share != "" || officeMode != "" || imageUrl != ""
  {
    kwargs := map[];
    if name != "" {
      kwargs := kwargs["name" := JStr(name)];
    }
    if description != "" {
      kwargs := kwargs["description" := JStr(description)];
    }
    if share != "" {
      kwargs := kwargs["share" := JBool(FormFlag(share))];
    }
    if officeMode != "" {
      kwargs := kwargs["office_mode" := JBool(FormFlag(officeMode))];
    }
    if imageUrl != "" {
      kwargs := kwargs["image_url" := JStr(imageUrl)];
    }
    called := kwargs != map[];
    if !called {
      assert "name" !in kwargs && "description" !in kwargs && "share" !in kwargs
        && "office_mode" !in kwargs && "image_url" !in kwargs;
    }
  }

  /**
   * The form's keyword arguments go through `update_group` unchanged: the
   * body it sends is the keyword dict itself, flags already being booleans.
   */
  lemma UpdateBodyOfKwargs(kwargs: Object)
    requires kwargs.Keys <= {"name", "description", "share", "office_mode", "image_url"}
    requires forall k :: k in kwargs ==> kwargs[k] != JNull
    requires "share" in kwargs ==> kwargs["share"].JBool?
    requires "office_mode" in kwargs ==> kwargs["office_mode"].JBool?
    ensures Api.UpdateGroupBody(Get(kwargs, "name"), Get(kwargs, "description"), Get(kwargs, "share"),
                                Get(kwargs, "office_mode"), Get(kwargs, "image_url")) == kwargs
  {
    var b := Api.UpdateGroupBody(Get(kwargs, "name"), Get(kwargs, "description"), Get(kwargs, "share"),
                                 Get(kwargs, "office_mode"), Get(kwargs, "image_url"));
    assert b.Keys == kwargs.Keys;
  }

  /** The add-member form keeps exactly its non-empty fields. */
  function AddMemberFields(nickname: string, userId: string, phoneNumber: string, email: string): (m: map<string, string>)
    ensures "nickname" in m <==> nickname != ""
    ensures "user_id" in m <==> userId != ""
    ensures "phone_number" in m <==> phoneNumber != ""
    ensures "email" in m <==> email != ""
    ensures forall k :: k in m ==> m[k] != ""
    ensures m.Keys <= {"nickname", "user_id", "phone_number", "email"}
  {
    var fields := map["nickname" := nickname, "user_id" := userId, "phone_number" := phoneNumber, "email" := email];
    map k | k in fields && fields[k] != "" :: fields[k]
  }

  /** The members passed to `add_members`, if it is called at all. */
  function AddMemberCall(nickname: string, userId: string, phoneNumber: string, email: string)
    : (r: Option<seq<map<string, string>>>)
    ensures r.Some? <==> nickname != "" || userId != "" || phoneNumber != "" || email != ""
    ensures r.Some? ==> r.value == [AddMemberFields(nickname, userId, phoneNumber, email)]
  {
    var m := AddMemberFields(nickname, userId, phoneNumber, email);
    if m != map[] then Some([m]) else None
  }

  /** A message from the other party that carries a name. */
  predicate FromOther(m: Object, userId: string) {
    PyStr(Get(m, "sender_id")) != userId && Truthy(Get(m, "name"))
  }

  /** The name of the first message from the other party, or None. */
  function OtherName(messages: seq<Object>, userId: string): Json {
    if messages == [] then JNull
    else if FromOther(messages[0], userId) then Get(messages[0], "name")
    else OtherName(messages[1..], userId)
  }

  /** What the DM page shows: the messages oldest first, and the other party's name. */
  method DmView(messages: seq<Object>, userId: string) returns (shown: seq<Object>, otherName: Json)
    ensures shown == Reverse(messages)
    ensures otherName == OtherName(messages, userId)
  {
    otherName := JNull;
    if messages != [] {
      var k := 0;
      while k < |messages|
        invariant 0 <= k <= |messages|
        invariant OtherName(messages, userId) == OtherName(messages[k..], userId)
      {
        var m := messages[k];
        assert messages[k..][1..] == messages[k + 1..];
        if PyStr(Get(m, "sender_id")) != userId && Truthy(Get(m, "name")) {
          otherName := Get(m, "name");
          break;
        }
        k := k + 1;
      }
    }
    shown := Reverse(messages);
  }

  /**
   * The other party's name is the name of the earliest message (in the
   * fetched, newest-first order) that is not from the user and has a name;
   * it is None exactly when there is no such message.
   */
  lemma {:induction false} OtherNameSpec(messages: seq<Object>, userId: string)
    ensures OtherName(messages, userId) == JNull <==> forall i :: 0 <= i < |messages| ==> !FromOther(messages[i], userId)
    ensures OtherName(messages, userId) != JNull ==>
      exists i :: 0 <= i < |messages| && FromOther(messages[i], userId)
        && OtherName(messages, userId) == Get(messages[i], "name")
        && forall j :: 0 <= j < i ==> !FromOther(messages[j], userId)
  {
    if messages != [] {
      OtherNameSpec(messages[1..], userId);
      if !FromOther(messages[0], userId) {
        forall i | 0 < i < |messages| ensures messages[i] == messages[1..][i - 1] { }
        if OtherName(messages, userId) != JNull {
          var i :| 0 <= i < |messages[1..]| && FromOther(messages[1..][i], userId)
            && OtherName(messages[1..], userId) == Get(messages[1..][i], "name")
            && forall j :: 0 <= j < i ==> !FromOther(messages[1..][j], userId);
          assert FromOther(messages[i + 1], userId);
          forall j | 0 <= j < i + 1 ensures !FromOther(messages[j], userId) {
            if j > 0 { assert messages[j] == messages[1..][j - 1]; }
          }
        }
      }
    }
  }

  /**
   * The user id read from the `/me` reply: `str()` of its `id` when it has
   * one, else of `response.id`, else of the first list element's `id`.
   * Only the presence of the key is checked, so an `id` of `""` is taken
   * (and then rejected below) even when `response.id` is set.
   */
  function MeId(me: Json): Option<string> {
    if me.JObj? then
      if "id" in me.fields then Some(PyStr(me.fields["id"]))
      else
        var response := Get(me.fields, "response");
        if response.JObj? && "id" in response.fields then Some(PyStr(response.fields["id"]))
        else None
    else if me.JArr? && me.items != [] && me.items[0].JObj? && "id" in me.items[0].fields then
      Some(PyStr(me.items[0].fields["id"]))
    else None
  }

  /** One event of the watch stream. */
  datatype SseEvent = Data(payload: Json) | Error(message: string)

  /**
   * How the stream ends before watching. `Exit` is the `SystemExit` that
   * `build_client_from_env` raises on a missing or empty `GROUPME_TOKEN`:
   * it is not an `Exception`, so it escapes the stream before any event is
   * sent. `Report` is an error the stream sends as its one event.
   */
  datatype Stop = Exit(message: string) | Report(message: string)

  /** What the browser receives: nothing before an escaping exit, or a list of events. */
  datatype WatchOutcome = Exited(message: string) | Sent(events: seq<SseEvent>)

  /** The watch the stream starts: the user id, the channels and the client id. */
  datatype Watch = Watch(userId: string, channels: seq<string>, clientId: Json)

  const MissingTokenExit := "Missing GROUPME_TOKEN environment variable. Set it in .env or shell."
  const ShapeError := "Unexpected /me response shape"

  /** Python's name for the type of a value, as it appears in error messages. */
  function TypeName(j: Json): string {
    match j
    case JNull => "NoneType"
    case JBool(_) => "bool"
    case JInt(_) => "int"
    case JStr(_) => "str"
    case JArr(_) => "list"
    case JObj(_) => "dict"
  }

  /** `str()` of the AttributeError that `resp.get("clientId")` raises on a reply without `get`. */
  function NoGetError(resp: Json): string {
    "'" + TypeName(resp) + "' object has no attribute 'get'"
  }

  /**
   * The steps before watching, in the order the stream takes them: the
   * token check of `build_client_from_env`, the user id of the `/me` reply,
   * then the handshake reply, whose client id the subscription uses. A
   * reply that is neither a list nor an object raises AttributeError, which
   * the stream's `except Exception` reports. The stream's own second token
   * check (webapp.py:427-430) reads the same variable after it was found
   * non-empty, so its "Missing token" event is never sent.
   */
  function WatchStart(token: Option<string>, me: Json, reply: Json): (r: Result<Watch, Stop>)
    ensures r.Failure? && r.error.Exit? <==> token.None? || token.value == ""
    ensures r.Failure? && r.error.Exit? ==> r.error.message == MissingTokenExit
    ensures token.Some? && token.value != "" && (MeId(me).None? || MeId(me).value == "") ==>
      r == Failure(Report(ShapeError))
    ensures token.Some? && token.value != "" && MeId(me).Some? && MeId(me).value != "" ==>
      match Bayeux.ClientIdOf(reply)
      case None => r == Failure(Report(NoGetError(reply)))
      case Some(id) => r.Success? && r.value.clientId == id
    ensures r.Success? ==>
      && r.value.userId == MeId(me).value && r.value.userId != ""
      && r.value.channels == ["/user/" + r.value.userId]
  {
    if token.None? || token.value == "" then Failure(Exit(MissingTokenExit))
    else match MeId(me)
      case None => Failure(Report(ShapeError))
      case Some(id) =>
        if id == "" then Failure(Report(ShapeError))
        else match Bayeux.ClientIdOf(reply)
          case None => Failure(Report(NoGetError(reply)))
          case Some(clientId) => Success(Watch(id, ["/user/" + id], clientId))
  }

  /**
   * The stream sent to the browser, given the token, the `/me` reply, the
   * handshake reply and the frames the push socket delivers after the
   * subscribe acknowledgements.
   */
  function WatchStream(token: Option<string>, me: Json, reply: Json, frames: seq<Json>): (r: WatchOutcome)
    ensures r.Exited? <==> token.None? || token.value == ""
    ensures r.Exited? ==> r.message == MissingTokenExit
    ensures WatchStart(token, me, reply).Failure? && r.Sent? ==>
      r.events == [Error(WatchStart(token, me, reply).error.message)]
    ensures WatchStart(token, me, reply).Success? ==>
      r.Sent? && |r.events| == |Bayeux.Events(frames)|
      && forall i :: 0 <= i < |r.events| ==> r.events[i] == Data(Bayeux.Events(frames)[i])
  {
    match WatchStart(token, me, reply)
    case Failure(Exit(m)) => Exited(m)
    case Failure(Report(m)) => Sent([Error(m)])
    case Success(_) => Sent(DataEvents(Bayeux.Events(frames)))
  }

  /** One `data:` event per payload, in order. */
  function DataEvents(payloads: seq<Json>): (events: seq<SseEvent>)
    ensures |events| == |payloads|
    ensures forall i :: 0 <= i < |payloads| ==> events[i] == Data(payloads[i])
  {
    seq(|payloads|, i requires 0 <= i < |payloads| => Data(payloads[i]))
  }

  lemma DataEventsAppend(a: seq<Json>, b: seq<Json>)
    ensures DataEvents(a + b) == DataEvents(a) + DataEvents(b)
  {
    var l := DataEvents(a + b);
    var r := DataEvents(a) + DataEvents(b);
    forall i | 0 <= i < |l| ensures l[i] == r[i] {
      if i >= |a| {
        assert (a + b)[i] == b[i - |a|];
      }
    }
  }

  /** A top-level `id` wins; a reply with only `response.id` or a list gives that id. */
  lemma MeIdShapes(id: Json, other: Object)
    ensures MeId(JObj(other["id" := id])) == Some(PyStr(id))
    ensures "id" !in other ==>
      MeId(JObj(other["response" := JObj(map["id" := id])])) == Some(PyStr(id))
    ensures MeId(JArr([JObj(map["id" := id])])) == Some(PyStr(id))
  {
  }

  /**
   * Whatever the socket delivers, a check that fails with an error the
   * stream reports sends exactly that one event, then nothing.
   */
  lemma WatchFailsOnce(token: Option<string>, me: Json, reply: Json, frames: seq<Json>, more: seq<Json>)
    requires WatchStart(token, me, reply).Failure? && WatchStart(token, me, reply).error.Report?
    ensures WatchStream(token, me, reply, frames + more).Sent?
    ensures |WatchStream(token, me, reply, frames + more).events| == 1
    ensures WatchStream(token, me, reply, frames + more) == WatchStream(token, me, reply, frames)
  {
  }

  /** On a watch that started, later frames only add events to the end of the stream. */
  lemma WatchStreamAppend(token: Option<string>, me: Json, reply: Json, frames: seq<Json>, more: seq<Json>)
    requires WatchStart(token, me, reply).Success?
    ensures WatchStream(token, me, reply, frames + more).events ==
      WatchStream(token, me, reply, frames).events + WatchStream(token, me, reply, more).events
  {
    Bayeux.EventsAppend(frames, more);
    DataEventsAppend(Bayeux.Events(frames), Bayeux.Events(more));
    assert WatchStream(token, me, reply, frames + more).events == DataEvents(Bayeux.Events(frames + more));
    assert WatchStream(token, me, reply, frames).events == DataEvents(Bayeux.Events(frames));
    assert WatchStream(token, me, reply, more).events == DataEvents(Bayeux.Events(more));
  }

  /** The stream never sends the "Missing token" error: a missing token exits before `/me` is read. */
  lemma NeverMissingToken(token: Option<string>, me: Json, reply: Json, frames: seq<Json>)
    ensures WatchStream(token, me, reply, frames).Sent? ==>
      Error("Missing token") !in WatchStream(token, me, reply, frames).events
  {
    var r := WatchStream(token, me, reply, frames);
    if r.Sent? && WatchStart(token, me, reply).Failure? {
      var m := WatchStart(token, me, reply).error.message;
      assert m == ShapeError || m == NoGetError(reply);
      assert m[0] != "Missing token"[0];
    }
  }
}
