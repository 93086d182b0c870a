/** The publish de-duplication cache of lib/mqttmanager.js and the `sys`
    branch of its incoming-message handler.  The MQTT client is replaced by
    the list of messages `publish` hands to it. */
module MqttManager {
  import opened Common

  /** `mqttmessagelist`: the last payload sent per topic. */
  type Cache = map<string, string>

  /** One `mqttclient.publish(topic, payload)`. */
  datatype Sent = Sent(topic: string, payload: string)

  datatype Published = Published(cache: Cache, sent: seq<Sent>)

  /** The cached payload, a missing entry reading as "" (the only falsy string). */
  function Cached(cache: Cache, topic: string): string {
    if topic in cache then cache[topic] else ""
  }

  /** `publish(topic, value)`: a falsy entry becomes "", then the value is
      sent and cached iff it differs from the entry. */
  function Publish(cache: Cache, topic: string, value: string): (r: Published)
    ensures r.sent == if value != Cached(cache, topic) then [Sent(topic, value)] else []
    ensures r.cache.Keys == cache.Keys + {topic}
    ensures r.cache[topic] == value
    ensures forall t :: t in cache && t != topic ==> r.cache[t] == cache[t]
  {
    var c := if topic !in cache || cache[topic] == "" then cache[topic := ""] else cache;
    if c[topic] != value then Published(c[topic := value], [Sent(topic, value)])
    else Published(c, [])
  }

  /** The same publication twice in a row reaches the broker at most once. */
  lemma PublishTwiceSendsOnce(cache: Cache, topic: string, value: string)
    ensures var first := Publish(cache, topic, value);
            var second := Publish(first.cache, topic, value);
            second.sent == [] && second.cache == first.cache && |first.sent + second.sent| <= 1
  {
    var first := Publish(cache, topic, value);
    assert first.cache[topic := value] == first.cache;
  }

  /** Publishing "" to a topic never sent before sends nothing. */
  lemma EmptyToNewTopicIsSilent(cache: Cache, topic: string)
    requires topic !in cache
    ensures Publish(cache, topic, "").sent == []
  {
  }

  /** `topic.split("/")`. */
  function Split(s: string): (r: seq<string>)
    ensures |r| >= 1
    decreases |s|
  {
    if |s| == 0 then [""]
    else if s[0] == '/' then [""] + Split(s[1..])
    else
      var rest := Split(s[1..]);
      [[s[0]] + rest[0]] + rest[1..]
  }

  /** `parts.join("/")`. */
  function Join(parts: seq<string>): string
    requires |parts| >= 1
    decreases |parts|
  {
    if |parts| == 1 then parts[0] else parts[0] + "/" + Join(parts[1..])
  }

  /** Joining the segments again gives back the topic, and no segment holds a '/'. */
  lemma {:induction false} SplitJoin(s: string)
    ensures Join(Split(s)) == s
    ensures forall i :: 0 <= i < |Split(s)| ==> '/' !in Split(s)[i]
    decreases |s|
  {
    if |s| > 0 {
      SplitJoin(s[1..]);
      var rest := Split(s[1..]);
      if s[0] == '/' {
        assert s == "/" + s[1..];
        SplitSlash(s[1..]);
        assert ([""] + rest)[1..] == rest;
      } else {
        assert s == [s[0]] + s[1..];
        SplitCons(s[0], s[1..]);
        var r := Split(s);
        assert r[1..] == rest[1..];
        if |rest| > 1 {
          assert Join(rest) == rest[0] + "/" + Join(rest[1..]);
        }
      }
    }
  }

  /** Segments free of '/' come back from their join unchanged. */
  lemma {:induction false} JoinSplit(parts: seq<string>)
    requires |parts| >= 1 && forall i :: 0 <= i < |parts| ==> '/' !in parts[i]
    ensures Split(Join(parts)) == parts
    decreases |parts|, |parts[0]|
  {
    if |parts| == 1 {
      SplitSegment(parts[0]);
    } else if |parts[0]| == 0 {
      JoinSplit(parts[1..]);
      assert Join(parts) == "/" + Join(parts[1..]);
      SplitSlash(Join(parts[1..]));
    } else {
      var c := parts[0][0];
      var tail := [parts[0][1..]] + parts[1..];
      assert forall i :: 1 <= i < |tail| ==> tail[i] == parts[i];
      assert '/' !in parts[0][1..] by {
        assert forall k :: 0 <= k < |parts[0][1..]| ==> parts[0][1..][k] == parts[0][k + 1];
      }
      JoinSplit(tail);
      JoinCons(c, parts, tail);
      SplitCons(c, Join(tail));
      assert [c] + parts[0][1..] == parts[0];
      assert tail[1..] == parts[1..];
    }
  }

  lemma JoinCons(c: char, parts: seq<string>, tail: seq<string>)
    requires |parts| >= 2 && |parts[0]| >= 1 && c == parts[0][0]
    requires tail == [parts[0][1..]] + parts[1..]
    ensures Join(parts) == [c] + Join(tail)
  {
    assert tail[1..] == parts[1..];
    assert Join(tail) == parts[0][1..] + "/" + Join(parts[1..]);
    assert parts[0] == [c] + parts[0][1..];
  }

  lemma SplitSlash(x: string)
    ensures Split("/" + x) == [""] + Split(x)
  {
    assert ("/" + x)[1..] == x;
  }

  lemma SplitCons(c: char, x: string)
    requires c != '/'
    ensures Split([c] + x) == [[c] + Split(x)[0]] + Split(x)[1..]
  {
    assert ([c] + x)[1..] == x;
  }

  /** A string without '/' is one segment. */
  lemma {:induction false} SplitSegment(s: string)
    requires '/' !in s
    ensures Split(s) == [s]
    decreases |s|
  {
    if |s| > 0 {
      assert '/' !in s[1..] by {
        assert forall k :: 0 <= k < |s[1..]| ==> s[1..][k] == s[k + 1];
      }
      SplitSegment(s[1..]);
      assert [s[0]] + s[1..] == s;
    }
  }

  /** What the handler does with a message that is not a system command:
      `res[1]` (undefined when the topic has no '/') goes to `lookupMessage`. */
  datatype Dispatch = SystemCommand | Forward(messageName: Option<string>)

  datatype Handled = Handled(cache: Cache, dispatch: Dispatch)

  /** The "message" handler: a second segment "sys" is a system command, and
      the payload "flush" empties the cache; anything else is forwarded. */
  function OnMessage(cache: Cache, topic: string, payload: string): (r: Handled)
    ensures r.dispatch.SystemCommand? <==> |Split(topic)| > 1 && Split(topic)[1] == "sys"
    ensures r.dispatch.SystemCommand? && payload == "flush" ==> r.cache == map[]
    ensures !(r.dispatch.SystemCommand? && payload == "flush") ==> r.cache == cache
    ensures r.dispatch.Forward? ==>
              r.dispatch.messageName == if |Split(topic)| > 1 then Some(Split(topic)[1]) else None
  {
    var res := Split(topic);
    if |res| > 1 && res[1] == "sys" then
      Handled(if payload == "flush" then map[] else cache, SystemCommand)
    else Handled(cache, Forward(if |res| > 1 then Some(res[1]) else None))
  }

  /** A topic whose second segment is "sys", such as "CAN/sys", with payload
      "flush" empties the cache. */
  lemma FlushTopic(cache: Cache, parts: seq<string>, payload: string)
    requires |parts| >= 2 && parts[1] == "sys" && forall i :: 0 <= i < |parts| ==> '/' !in parts[i]
    requires payload == "flush"
    ensures OnMessage(cache, Join(parts), payload).cache == map[]
  {
    JoinSplit(parts);
  }

  /** After a flush the next publication of any non-empty value is sent. */
  lemma FlushThenPublishSends(cache: Cache, topic: string, payload: string, t: string, value: string)
    requires OnMessage(cache, topic, payload).dispatch.SystemCommand? && payload == "flush"
    requires value != ""
    ensures Publish(OnMessage(cache, topic, payload).cache, t, value).sent == [Sent(t, value)]
  {
  }
}
