/**
 * The Bayeux (Faye) message handling of `watch_group`: the handshake
 * request, picking the client id out of the handshake reply, the subscribe
 * messages, and turning received frames into the stream of payloads.
 * The socket itself is not modelled: replies and frames are given as
 * already-parsed JSON values, and the clock reading is a parameter.
 */
module Bayeux {
  import opened Wrappers
  import opened Json

  const HandshakeChannel := "/meta/handshake"
  const SubscribeChannel := "/meta/subscribe"

  /** The first message sent: a handshake carrying the token and the time. */
  function HandshakeRequest(token: string, timestamp: int): (m: Object)
    ensures Get(m, "channel") == JStr(HandshakeChannel)
    ensures Get(m, "version") == JStr("1.0")
    ensures Get(m, "supportedConnectionTypes") == JArr([JStr("websocket")])
    ensures Get(m, "ext").JObj?
    ensures Get(Get(m, "ext").fields, "access_token") == JStr(token)
    ensures Get(Get(m, "ext").fields, "timestamp") == JInt(timestamp)
    ensures Get(m, "ext").fields.Keys == {"access_token", "timestamp"}
    ensures m.Keys == {"channel", "version", "supportedConnectionTypes", "ext"}
  {
    map[
      "channel" := JStr(HandshakeChannel),
      "version" := JStr("1.0"),
      "supportedConnectionTypes" := JArr([JStr("websocket")]),
      "ext" := JObj(map["access_token" := JStr(token), "timestamp" := JInt(timestamp)])
    ]
  }

  /** An element of a batched reply that answers the handshake and names a client. */
  predicate IsHandshakeReply(item: Json) {
    item.JObj? && Get(item.fields, "channel") == JStr(HandshakeChannel)
    && Truthy(Get(item.fields, "clientId"))
  }

  /** The client id of the first handshake answer in a batch, or None. */
  function FirstClientId(items: seq<Json>): Json {
    if items == [] then JNull
    else if IsHandshakeReply(items[0]) then Get(items[0].fields, "clientId")
    else FirstClientId(items[1..])
  }

  /**
   * The client id read from the handshake reply: from the first matching
   * element of a batch, or straight from a single object without looking at
   * its channel. `None` stands for the AttributeError Python raises when the
   * reply is neither a list nor a dict.
   */
  function ClientIdOf(resp: Json): Option<Json> {
    match resp
    case JArr(items) => Some(FirstClientId(items))
    case JObj(fields) => Some(Get(fields, "clientId"))
    case _ => None
  }

  /** The scan over the reply, stopping at the first match. */
  method HandshakeClientId(resp: Json) returns (r: Option<Json>)
    ensures r == ClientIdOf(resp)
  {
    if resp.JArr? {
      var clientId := JNull;
      var k := 0;
      while k < |resp.items|
        invariant 0 <= k <= |resp.items|
        invariant FirstClientId(resp.items) == FirstClientId(resp.items[k..])
        invariant clientId == JNull
      {
        var item := resp.items[k];
        assert resp.items[k..][1..] == resp.items[k + 1..];
        if item.JObj? && Get(item.fields, "channel") == JStr(HandshakeChannel)
          && Truthy(Get(item.fields, "clientId"))
        {
          clientId := Get(item.fields, "clientId");
          break;
        }
        k := k + 1;
      }
      r := Some(clientId);
    } else if resp.JObj? {
      r := Some(Get(resp.fields, "clientId"));
    } else {
      r := None;
    }
  }

  /**
   * A batch yields the client id of its first handshake answer, which is
   * truthy, and yields None exactly when no element answers the handshake.
   */
  lemma {:induction false} FirstClientIdSpec(items: seq<Json>)
    ensures FirstClientId(items) == JNull <==> forall i :: 0 <= i < |items| ==> !IsHandshakeReply(items[i])
    ensures FirstClientId(items) != JNull ==>
      exists i :: 0 <= i < |items| && IsHandshakeReply(items[i])
        && FirstClientId(items) == Get(items[i].fields, "clientId")
        && forall j :: 0 <= j < i ==> !IsHandshakeReply(items[j])
  {
    if items != [] {
      FirstClientIdSpec(items[1..]);
      if IsHandshakeReply(items[0]) {
        assert Truthy(Get(items[0].fields, "clientId"));
      } else {
        forall i | 0 < i < |items| ensures items[i] == items[1..][i - 1] { }
        if FirstClientId(items) != JNull {
          var i :| 0 <= i < |items[1..]| && IsHandshakeReply(items[1..][i])
            && FirstClientId(items[1..]) == Get(items[1..][i].fields, "clientId")
            && forall j :: 0 <= j < i ==> !IsHandshakeReply(items[1..][j]);
          assert IsHandshakeReply(items[i + 1]);
          forall j | 0 <= j < i + 1 ensures !IsHandshakeReply(items[j]) {
            if j > 0 { assert items[j] == items[1..][j - 1]; }
          }
        }
      }
    }
  }

  /** A batch whose first element answers the handshake yields that element's id. */
  lemma ClientIdOfBatch(items: seq<Json>, later: seq<Json>)
    requires items != [] && IsHandshakeReply(items[0])
    ensures ClientIdOf(JArr(items + later)) == Some(Get(items[0].fields, "clientId"))
  {
    assert (items + later)[0] == items[0];
  }

  /** The subscribe request for one channel. */
  function SubscribeMessage(clientId: Json, channel: string): (m: Object)
    ensures Get(m, "channel") == JStr(SubscribeChannel)
    ensures Get(m, "clientId") == clientId
    ensures Get(m, "subscription") == JStr(channel)
    ensures m.Keys == {"channel", "clientId", "subscription"}
  {
    map["channel" := JStr(SubscribeChannel), "clientId" := clientId, "subscription" := JStr(channel)]
  }

  /** The subscribe requests sent, one per channel in channel order (acks are ignored). */
  method Subscribe(clientId: Json, channels: seq<string>) returns (sent: seq<Object>)
    ensures |sent| == |channels|
    ensures forall i :: 0 <= i < |sent| ==> sent[i] == SubscribeMessage(clientId, channels[i])
    ensures forall i :: 0 <= i < |sent| ==>
      sent[i].Keys == {"channel", "clientId", "subscription"}
      && sent[i]["channel"] == JStr(SubscribeChannel)
      && sent[i]["clientId"] == clientId
      && sent[i]["subscription"] == JStr(channels[i])
  {
    sent := [];
    for k := 0 to |channels|
      invariant |sent| == k
      invariant forall i :: 0 <= i < k ==> sent[i] == SubscribeMessage(clientId, channels[i])
    {
      sent := sent + [SubscribeMessage(clientId, channels[k])];
    }
  }

  /** A received frame is a list of envelopes or a single envelope. */
  function Envelopes(frame: Json): seq<Json> {
    if frame.JArr? then frame.items else [frame]
  }

  /**
   * What one envelope yields: its `data` unless that is None, else the
   * `data` of its `ext` when `ext` is a dict and that value is truthy.
   * Envelopes that are not dicts, and those with neither, yield nothing.
   */
  function Payload(env: Json): Option<Json> {
    if !env.JObj? then None
    else
      var data := Get(env.fields, "data");
      var ext := Get(env.fields, "ext");
      var payload :=
        if data == JNull && ext.JObj? && Truthy(Get(ext.fields, "data")) then Get(ext.fields, "data")
        else data;
      if payload != JNull then Some(payload) else None
  }

  /** The three ways an envelope can go: the rule above, stated case by case. */
  lemma PayloadCases(env: Json)
    ensures !env.JObj? ==> Payload(env) == None
    ensures env.JObj? && Get(env.fields, "data") != JNull ==>
      Payload(env) == Some(Get(env.fields, "data"))
    ensures env.JObj? && Get(env.fields, "data") == JNull ==>
      (Payload(env) != None <==>
        Get(env.fields, "ext").JObj? && Truthy(Get(Get(env.fields, "ext").fields, "data")))
    ensures Payload(env).Some? ==> Payload(env).value != JNull
    ensures env.JObj? && Get(env.fields, "data") == JNull && Payload(env).Some? ==>
      Payload(env).value == Get(Get(env.fields, "ext").fields, "data")
  {
  }

  /** What one envelope adds to the stream: its payload, or nothing. */
  function Yield(env: Json): seq<Json> {
    match Payload(env)
    case Some(p) => [p]
    case None => []
  }

  /** The payloads yielded by a run of envelopes, in envelope order. */
  function EnvelopeEvents(envs: seq<Json>): seq<Json> {
    if envs == [] then [] else Yield(envs[0]) + EnvelopeEvents(envs[1..])
  }

  /** The payloads yielded for a frame. */
  function FrameEvents(frame: Json): seq<Json> {
    EnvelopeEvents(Envelopes(frame))
  }

  /** The payloads yielded for a sequence of frames, frame after frame. */
  function Events(frames: seq<Json>): seq<Json> {
    if frames == [] then [] else FrameEvents(frames[0]) + Events(frames[1..])
  }

  /** True when `idx` lists positions below `n` in increasing order. */
  predicate Ascending(idx: seq<nat>, n: nat) {
    (forall k :: 0 <= k < |idx| ==> idx[k] < n)
    && (forall k, l :: 0 <= k < l < |idx| ==> idx[k] < idx[l])
  }

  /** Every position moved one place on. */
  function Shift(idx: seq<nat>): (r: seq<nat>)
    ensures |r| == |idx|
    ensures forall k :: 0 <= k < |idx| ==> r[k] == idx[k] + 1
  {
    seq(|idx|, k requires 0 <= k < |idx| => idx[k] + 1)
  }

  lemma ShiftAscending(idx: seq<nat>, n: nat, first: bool)
    requires Ascending(idx, n)
    ensures Ascending((if first then [0] else []) + Shift(idx), n + 1)
  {
  }

  /**
   * The events of a run of envelopes are exactly the payloads of the
   * envelopes that have one, in envelope order: there is an increasing list
   * of positions, covering every envelope with a payload, whose payloads
   * are the events.
   */
  lemma {:induction false} EnvelopeEventsSpec(envs: seq<Json>) returns (idx: seq<nat>)
    ensures Ascending(idx, |envs|)
    ensures |idx| == |EnvelopeEvents(envs)|
    ensures forall k :: 0 <= k < |idx| ==> Payload(envs[idx[k]]) == Some(EnvelopeEvents(envs)[k])
    ensures forall i :: 0 <= i < |envs| && Payload(envs[i]).Some? ==> i in idx
  {
    if envs == [] {
      idx := [];
    } else {
      var rest := EnvelopeEventsSpec(envs[1..]);
      var first := Payload(envs[0]).Some?;
      ShiftAscending(rest, |envs| - 1, first);
      idx := (if first then [0] else []) + Shift(rest);
      var head := if first then 1 else 0;
      EnvelopeEventsParts(envs, rest, idx, head);
      EnvelopeEventsCover(envs, rest, idx, head);
    }
  }

  lemma EnvelopeEventsCover(envs: seq<Json>, rest: seq<nat>, idx: seq<nat>, head: nat)
    requires envs != [] && head <= 1
    requires head == 1 <==> Payload(envs[0]).Some?
    requires forall i :: 0 <= i < |envs| - 1 && Payload(envs[1..][i]).Some? ==> i in rest
    requires idx == (if head == 1 then [0] else []) + Shift(rest)
    ensures forall i :: 0 <= i < |envs| && Payload(envs[i]).Some? ==> i in idx
  {
    forall i | 0 <= i < |envs| && Payload(envs[i]).Some? ensures i in idx {
      if i == 0 {
        assert idx[0] == 0;
      } else {
        assert envs[i] == envs[1..][i - 1];
        var k :| 0 <= k < |rest| && rest[k] == i - 1;
        assert idx[head + k] == i;
      }
    }
  }

  lemma EnvelopeEventsParts(envs: seq<Json>, rest: seq<nat>, idx: seq<nat>, head: nat)
    requires envs != []
    requires head == if Payload(envs[0]).Some? then 1 else 0
    requires forall k :: 0 <= k < |rest| ==> rest[k] < |envs| - 1
    requires |rest| == |EnvelopeEvents(envs[1..])|
    requires forall k :: 0 <= k < |rest| ==> Payload(envs[1..][rest[k]]) == Some(EnvelopeEvents(envs[1..])[k])
    requires idx == (if head == 1 then [0] else []) + Shift(rest)
    ensures |idx| == |EnvelopeEvents(envs)|
    ensures forall k :: 0 <= k < |idx| ==> Payload(envs[idx[k]]) == Some(EnvelopeEvents(envs)[k])
  {
    var events := EnvelopeEvents(envs);
    var tail := EnvelopeEvents(envs[1..]);
    var first := Yield(envs[0]);
    YieldOf(envs[0]);
    assert events == first + tail;
    assert |first| == head;
    forall k | 0 <= k < |idx| ensures Payload(envs[idx[k]]) == Some(events[k]) {
      if k < head {
        assert idx[k] == 0 && events[k] == first[0];
      } else {
        EnvelopeEventsLater(envs, rest, idx, head, k);
      }
    }
  }

  /** The envelope at a later position of `idx` is the one `rest` names in the tail. */
  lemma EnvelopeEventsLater(envs: seq<Json>, rest: seq<nat>, idx: seq<nat>, head: nat, k: nat)
    requires envs != [] && head <= 1
    requires head == |Yield(envs[0])|
    requires idx == (if head == 1 then [0] else []) + Shift(rest)
    requires head <= k < |idx|
    requires rest[k - head] < |envs| - 1
    requires k - head < |EnvelopeEvents(envs[1..])|
    requires Payload(envs[1..][rest[k - head]]) == Some(EnvelopeEvents(envs[1..])[k - head])
    ensures Payload(envs[idx[k]]) == Some(EnvelopeEvents(envs)[k])
  {
    var tail := EnvelopeEvents(envs[1..]);
    var first := Yield(envs[0]);
    var pre: seq<nat> := if head == 1 then [0] else [];
    var j := k - head;
    assert |pre| == head;
    assert idx[k] == Shift(rest)[j] == rest[j] + 1;
    assert envs[idx[k]] == envs[1..][rest[j]];
    assert EnvelopeEvents(envs) == first + tail;
    assert (first + tail)[k] == tail[j];
  }

  /** What one envelope yields: its payload, when it has one. */
  lemma YieldOf(env: Json)
    ensures Payload(env).Some? ==> Yield(env) == [Payload(env).value]
    ensures Payload(env).None? ==> Yield(env) == []
  {
  }

  /** A list frame's events are its dict elements' payloads; a single envelope its own. */
  lemma FrameEventsOf(frame: Json)
    ensures !frame.JArr? ==> FrameEvents(frame) == Yield(frame)
    ensures frame.JArr? ==> FrameEvents(frame) == EnvelopeEvents(frame.items)
  {
    if !frame.JArr? {
      assert Envelopes(frame) == [frame];
      assert [frame][1..] == [];
      assert EnvelopeEvents([frame]) == Yield(frame) + EnvelopeEvents([]);
    }
  }

  /** Envelopes are handled one at a time: splitting a run splits its events. */
  lemma {:induction false} EnvelopeEventsAppend(a: seq<Json>, b: seq<Json>)
    ensures EnvelopeEvents(a + b) == EnvelopeEvents(a) + EnvelopeEvents(b)
  {
    if a != [] {
      assert (a + b)[1..] == a[1..] + b;
      EnvelopeEventsAppend(a[1..], b);
    } else {
      assert a + b == b;
    }
  }

  /** Frames are handled one at a time: the stream of later frames only adds events. */
  lemma {:induction false} EventsAppend(a: seq<Json>, b: seq<Json>)
    ensures Events(a + b) == Events(a) + Events(b)
  {
    if a != [] {
      assert (a + b)[1..] == a[1..] + b;
      EventsAppend(a[1..], b);
    } else {
      assert a + b == b;
    }
  }

  /** The events are the envelopes of all frames, handled in order. */
  lemma {:induction false} EventsFlatten(frames: seq<Json>)
    ensures Events(frames) == EnvelopeEvents(AllEnvelopes(frames))
  {
    if frames != [] {
      EventsFlatten(frames[1..]);
      EnvelopeEventsAppend(Envelopes(frames[0]), AllEnvelopes(frames[1..]));
    }
  }

  /** Every envelope of every frame, in order. */
  function AllEnvelopes(frames: seq<Json>): seq<Json> {
    if frames == [] then [] else Envelopes(frames[0]) + AllEnvelopes(frames[1..])
  }

  /** No event is ever None, and no envelope yields more than one event. */
  lemma {:induction false} EventsBound(envs: seq<Json>)
    ensures |EnvelopeEvents(envs)| <= |envs|
    ensures forall k :: 0 <= k < |EnvelopeEvents(envs)| ==> EnvelopeEvents(envs)[k] != JNull
  {
    if envs != [] {
      EventsBound(envs[1..]);
      PayloadCases(envs[0]);
    }
  }
}
