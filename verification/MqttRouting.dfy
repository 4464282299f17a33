/** MQTT topics and the queues messages are routed to (protocol_mqtt/_config.py,
    protocol_mqtt/_topic_resolver.py, protocol_mqtt/_port.py). */
module MqttRouting {
  import opened Floats
  import opened Options
  import opened RegisterMaps

  datatype TopicConfig = TopicConfig(
    telemetry: Option<string>, command: Option<string>, qosPublish: int, qosSubscribe: int)

  /** The items of the topics mapping, in its order. */
  type Topics = seq<(string, TopicConfig)>

  ghost predicate DistinctDevices(topics: Topics) {
    forall i, j :: 0 <= i < j < |topics| ==> topics[i].0 != topics[j].0
  }

  datatype ConfigError =
    | EmptyTopic(device: string) | InvalidQos(device: string)
    | DuplicateTopic(topic: string, devices: seq<string>)

  /** `_validate_single_topic_config`. */
  function ValidateSingle(device: string, c: TopicConfig): Option<ConfigError> {
    if c.telemetry.None? && c.command.None? then Some(EmptyTopic(device))
    else if c.qosPublish !in {0, 1, 2} || c.qosSubscribe !in {0, 1, 2} then Some(InvalidQos(device))
    else None
  }

  function StringsOf(device: string, c: TopicConfig): seq<(string, string)> {
    (if c.telemetry.Some? then [(c.telemetry.value, device)] else [])
    + (if c.command.Some? then [(c.command.value, device)] else [])
  }

  /** Every topic string with its device, in the order they are met. */
  function AllStrings(topics: Topics): seq<(string, string)> {
    if topics == [] then []
    else AllStrings(topics[..|topics| - 1]) + StringsOf(topics[|topics| - 1].0, topics[|topics| - 1].1)
  }

  /** No topic string occurs twice, be it for one device or for two. */
  ghost predicate DistinctTopics(strings: seq<(string, string)>) {
    forall i, j :: 0 <= i < j < |strings| ==> strings[i].0 != strings[j].0
  }

  /** The devices of a topic string, in order. */
  function DevicesOf(strings: seq<(string, string)>, topic: string): seq<string> {
    if strings == [] then []
    else
      var (t, device) := strings[|strings| - 1];
      DevicesOf(strings[..|strings| - 1], topic) + (if t == topic then [device] else [])
  }

  /** The topic strings, each where it is met first. */
  function InOrderMet(strings: seq<(string, string)>): seq<string> {
    if strings == [] then []
    else
      var before, topic := InOrderMet(strings[..|strings| - 1]), strings[|strings| - 1].0;
      if topic in before then before else before + [topic]
  }

  /** A dictionary: its entries, and its keys in the order in which they were inserted. */
  datatype Dict = Dict(entries: map<string, seq<string>>, keys: seq<string>)

  /** `dest.setdefault(topic, []).append(device)`. */
  function Appended(dest: Dict, topic: string, device: string): Dict {
    if topic in dest.entries then dest.(entries := dest.entries[topic := dest.entries[topic] + [device]])
    else Dict(dest.entries[topic := [device]], dest.keys + [topic])
  }

  ghost predicate Collected(dest: Dict, strings: seq<(string, string)>) {
    && (forall t :: t in dest.entries <==> DevicesOf(strings, t) != [])
    && (forall t :: t in dest.entries ==> dest.entries[t] == DevicesOf(strings, t))
    && dest.keys == InOrderMet(strings)
    && (forall t :: t in dest.keys <==> t in dest.entries)
  }

  lemma CollectOne(dest: Dict, strings: seq<(string, string)>, topic: string, device: string)
    requires Collected(dest, strings)
    ensures Collected(Appended(dest, topic, device), strings + [(topic, device)])
  {
    var more := strings + [(topic, device)];
    assert more[..|strings|] == strings;
    forall t ensures DevicesOf(more, t) == DevicesOf(strings, t) + (if t == topic then [device] else []) {
    }
  }

  /** `_collect_topic_strings`. */
  method Collect(device: string, c: TopicConfig, dest: Dict, ghost strings: seq<(string, string)>)
    returns (collected: Dict)
    requires Collected(dest, strings)
    ensures Collected(collected, strings + StringsOf(device, c))
  {
    collected := dest;
    ghost var met := strings;
    var both := [c.telemetry, c.command];
    for i := 0 to 2
      invariant Collected(collected, met)
      invariant met == strings + (if i > 0 && c.telemetry.Some? then [(c.telemetry.value, device)] else [])
                               + (if i > 1 && c.command.Some? then [(c.command.value, device)] else [])
    {
      if both[i].Some? {
        var topic := both[i].value;
        CollectOne(collected, met, topic, device);
        collected := Appended(collected, topic, device);
        met := met + [(topic, device)];
      }
    }
    assert met == strings + StringsOf(device, c);
  }

  lemma {:induction false} OccursMeansDevices(strings: seq<(string, string)>, topic: string)
    ensures |DevicesOf(strings, topic)| == 0 <==> forall i :: 0 <= i < |strings| ==> strings[i].0 != topic
    ensures |DevicesOf(strings, topic)| > 1 ==>
              exists i, j :: 0 <= i < j < |strings| && strings[i].0 == strings[j].0
  {
    if strings != [] {
      var n := |strings| - 1;
      OccursMeansDevices(strings[..n], topic);
      if |DevicesOf(strings, topic)| > 1 && strings[n].0 == topic {
        var i :| 0 <= i < n && strings[..n][i].0 == topic;
        assert strings[i].0 == strings[n].0;
      } else if |DevicesOf(strings, topic)| > 1 {
        var i, j :| 0 <= i < j < n && strings[..n][i].0 == strings[..n][j].0;
        assert strings[i].0 == strings[j].0;
      }
    }
  }

  lemma {:induction false} TwiceMeansTwoDevices(strings: seq<(string, string)>, i: nat, j: nat)
    requires i < j < |strings| && strings[i].0 == strings[j].0
    ensures |DevicesOf(strings, strings[i].0)| > 1
  {
    var n := |strings| - 1;
    if j == n {
      OccursMeansDevices(strings[..n], strings[i].0);
      assert strings[..n][i].0 == strings[i].0;
    } else {
      TwiceMeansTwoDevices(strings[..n], i, j);
    }
  }

  /** There is a topic to listen on or to send to. */
  predicate HasTopic(c: TopicConfig) {
    c.telemetry != None || c.command != None
  }

  /** Both qualities of service are 0, 1 or 2. */
  predicate HasQos(c: TopicConfig) {
    0 <= c.qosPublish <= 2 && 0 <= c.qosSubscribe <= 2
  }

  ghost predicate AllSingle(topics: Topics) {
    forall i :: 0 <= i < |topics| ==> HasTopic(topics[i].1) && HasQos(topics[i].1)
  }

  /** `topic` occurs more than once, and no topic string met before it does. */
  ghost predicate FirstDuplicate(strings: seq<(string, string)>, topic: string) {
    && |DevicesOf(strings, topic)| > 1
    && exists k :: 0 <= k < |InOrderMet(strings)| && InOrderMet(strings)[k] == topic
                   && SingleUpTo(strings, k)
  }

  ghost predicate SingleUpTo(strings: seq<(string, string)>, k: nat) {
    forall j :: 0 <= j < k && j < |InOrderMet(strings)| ==> |DevicesOf(strings, InOrderMet(strings)[j])| == 1
  }

  lemma OneDeviceEach(strings: seq<(string, string)>)
    requires SingleUpTo(strings, |InOrderMet(strings)|)
    requires forall t :: t in InOrderMet(strings) <==> DevicesOf(strings, t) != []
    ensures DistinctTopics(strings)
  {
    forall i, j | 0 <= i < j < |strings| ensures strings[i].0 != strings[j].0 {
      if strings[i].0 == strings[j].0 {
        TwiceMeansTwoDevices(strings, i, j);
      }
    }
  }

  /** `_assert_unique_topics`. */
  method AssertUnique(dest: Dict, ghost strings: seq<(string, string)>) returns (error: Option<ConfigError>)
    requires Collected(dest, strings)
    ensures error.None? <==> DistinctTopics(strings)
    ensures error.Some? ==>
              && error.value.DuplicateTopic?
              && FirstDuplicate(strings, error.value.topic)
              && error.value.devices == DevicesOf(strings, error.value.topic)
  {
    for k := 0 to |dest.keys|
      invariant SingleUpTo(strings, k)
    {
      var topic := dest.keys[k];
      assert topic in dest.keys;
      if |dest.entries[topic]| > 1 {
        OccursMeansDevices(strings, topic);
        return Some(DuplicateTopic(topic, dest.entries[topic]));
      }
    }
    OneDeviceEach(strings);
    return None;
  }

  /** Entry `k` is the first that is not valid by itself. */
  ghost predicate FirstInvalid(topics: Topics, k: nat, error: ConfigError) {
    && k < |topics| && AllSingle(topics[..k])
    && var (device, c) := topics[k];
       if !HasTopic(c) then error == EmptyTopic(device) else !HasQos(c) && error == InvalidQos(device)
  }

  lemma OneMoreTopic(topics: Topics, i: nat)
    requires i < |topics| && AllSingle(topics[..i])
    ensures AllStrings(topics[..i + 1]) == AllStrings(topics[..i]) + StringsOf(topics[i].0, topics[i].1)
    ensures AllSingle(topics[..i + 1]) <==> ValidateSingle(topics[i].0, topics[i].1).None?
    ensures ValidateSingle(topics[i].0, topics[i].1).Some? ==>
              && !AllSingle(topics)
              && FirstInvalid(topics, i, ValidateSingle(topics[i].0, topics[i].1).value)
  {
    assert topics[..i + 1][..i] == topics[..i];
    assert topics[..i + 1][i] == topics[i];
  }

  /** `_validate_topics`: accepted exactly when every entry is valid by itself and all telemetry
      and command strings are pairwise distinct. */
  method ValidateTopics(topics: Topics) returns (error: Option<ConfigError>)
    ensures error.None? <==> AllSingle(topics) && DistinctTopics(AllStrings(topics))
    ensures error.Some? && error.value.DuplicateTopic? ==>
              && AllSingle(topics)
              && FirstDuplicate(AllStrings(topics), error.value.topic)
              && error.value.devices == DevicesOf(AllStrings(topics), error.value.topic)
    ensures error.Some? && !error.value.DuplicateTopic? ==> exists k :: FirstInvalid(topics, k, error.value)
  {
    var dest := Dict(map[], []);
    for i := 0 to |topics|
      invariant AllSingle(topics[..i])
      invariant Collected(dest, AllStrings(topics[..i]))
    {
      var (device, c) := topics[i];
      var single := ValidateSingle(device, c);
      OneMoreTopic(topics, i);
      if single.Some? {
        return single;
      }
      dest := Collect(device, c, dest, AllStrings(topics[..i]));
    }
    assert topics[..|topics|] == topics;
    error := AssertUnique(dest, AllStrings(topics));
  }

  /** One device whose two topics are the same string is refused, though no other shares it. */
  lemma OneDeviceCanClash(device: string, topic: string)
    ensures var topics := [(device, TopicConfig(Some(topic), Some(topic), 0, 0))];
            && AllSingle(topics) && !DistinctTopics(AllStrings(topics))
            && FirstDuplicate(AllStrings(topics), topic) && DevicesOf(AllStrings(topics), topic) == [device, device]
  {
    var c := TopicConfig(Some(topic), Some(topic), 0, 0);
    assert StringsOf(device, c) == [(topic, device)] + [(topic, device)];
    assert [(device, c)][..0] == [];
    assert AllStrings([(device, c)]) == [(topic, device), (topic, device)];
    MetTwice(topic, device);
  }

  lemma MetOnce(topic: string, device: string)
    ensures DevicesOf([(topic, device)], topic) == [device] && InOrderMet([(topic, device)]) == [topic]
  {
    var one := [(topic, device)];
    assert one[..0] == [];
    assert DevicesOf(one[..0], topic) == [] && InOrderMet(one[..0]) == [];
    assert topic !in InOrderMet(one[..0]) && one[0].0 == topic;
    assert InOrderMet(one) == InOrderMet(one[..0]) + [topic];
  }

  lemma MetTwice(topic: string, device: string)
    ensures var strings := [(topic, device), (topic, device)];
            && !DistinctTopics(strings) && FirstDuplicate(strings, topic)
            && DevicesOf(strings, topic) == [device, device]
  {
    var strings := [(topic, device), (topic, device)];
    var one := [(topic, device)];
    assert strings[..1] == one;
    MetOnce(topic, device);
    assert DevicesOf(strings, topic) == [device] + [device];
    assert InOrderMet(strings)[0] == topic && SingleUpTo(strings, 0);
    assert strings[0].0 == strings[1].0;
  }

  // ---- the reverse index ----

  function IndexOf(topics: Topics): map<string, string> {
    if topics == [] then map[]
    else
      var (device, c) := topics[|topics| - 1];
      var before := IndexOf(topics[..|topics| - 1]);
      if c.telemetry.Some? then before[c.telemetry.value := device] else before
  }

  /** `build_telemetry_topic_index`. */
  method BuildIndex(topics: Topics) returns (index: map<string, string>)
    ensures index == IndexOf(topics)
  {
    index := map[];
    for i := 0 to |topics|
      invariant index == IndexOf(topics[..i])
    {
      var (device, c) := topics[i];
      assert topics[..i + 1][..i] == topics[..i];
      if c.telemetry.Some? {
        index := index[c.telemetry.value := device];
      }
    }
    assert topics[..|topics|] == topics;
  }

  /** `device` subscribes to `topic`. */
  ghost predicate Telemetry(topics: Topics, device: string, topic: string) {
    exists i :: 0 <= i < |topics| && topics[i].0 == device && topics[i].1.telemetry == Some(topic)
  }

  lemma {:induction false} StringsPrefix(topics: Topics, k: nat)
    requires k <= |topics|
    ensures |AllStrings(topics[..k])| <= |AllStrings(topics)|
    ensures AllStrings(topics)[..|AllStrings(topics[..k])|] == AllStrings(topics[..k])
  {
    if k == |topics| {
      assert topics[..k] == topics;
    } else {
      var n := |topics| - 1;
      StringsPrefix(topics[..n], k);
      assert topics[..n][..k] == topics[..k];
    }
  }

  lemma {:induction false} IndexedIsListed(topics: Topics, topic: string)
    requires topic in IndexOf(topics)
    ensures exists i :: 0 <= i < |AllStrings(topics)| && AllStrings(topics)[i].0 == topic
    ensures Telemetry(topics, IndexOf(topics)[topic], topic)
  {
    var n := |topics| - 1;
    var (device, c) := topics[n];
    var before := AllStrings(topics[..n]);
    if c.telemetry == Some(topic) {
      assert AllStrings(topics)[|before|] == (topic, device);
    } else {
      IndexedIsListed(topics[..n], topic);
      var i :| 0 <= i < |before| && before[i].0 == topic;
      assert AllStrings(topics)[i].0 == topic;
      var k :| 0 <= k < n && topics[..n][k].0 == IndexOf(topics[..n])[topic]
               && topics[..n][k].1.telemetry == Some(topic);
      assert topics[k].0 == IndexOf(topics)[topic];
    }
  }

  lemma {:induction false} ListedIsIndexed(topics: Topics, k: nat, topic: string)
    requires k < |topics| && topics[k].1.telemetry == Some(topic)
    requires DistinctTopics(AllStrings(topics))
    ensures topic in IndexOf(topics) && IndexOf(topics)[topic] == topics[k].0
  {
    var n := |topics| - 1;
    var before := AllStrings(topics[..n]);
    if k < n {
      StringsPrefix(topics, n);
      ListedIsIndexed(topics[..n], k, topic);
      IndexedIsListed(topics[..n], topic);
      var i :| 0 <= i < |before| && before[i].0 == topic;
      if topics[n].1.telemetry.Some? {
        assert AllStrings(topics)[|before|].0 == topics[n].1.telemetry.value;
        assert AllStrings(topics)[i].0 == topic;
      }
    }
  }

  /** For accepted topics the index is the exact inverse of "device subscribes to topic". */
  lemma IndexIsInverse(topics: Topics, device: string, topic: string)
    requires DistinctTopics(AllStrings(topics))
    ensures topic in IndexOf(topics) && IndexOf(topics)[topic] == device <==> Telemetry(topics, device, topic)
  {
    if topic in IndexOf(topics) && IndexOf(topics)[topic] == device {
      IndexedIsListed(topics, topic);
    }
    if Telemetry(topics, device, topic) {
      var k :| 0 <= k < |topics| && topics[k].0 == device && topics[k].1.telemetry == Some(topic);
      ListedIsIndexed(topics, k, topic);
    }
  }

  // ---- routing ----

  datatype ReadResult = Got(point: Option<Point>) | UnknownTarget

  type Queues = map<string, seq<Point>>

  function QueueOf(queues: Queues, device: string): seq<Point> {
    if device in queues then queues[device] else []
  }

  /** `decoded` is what decoding the payload gives; None when it raises, which the callback
      boundary swallows. */
  function Dispatched(index: map<string, string>, queues: Queues, topic: string, decoded: Option<Point>): Queues {
    if topic !in index || decoded.None? then queues
    else queues[index[topic] := QueueOf(queues, index[topic]) + [decoded.value]]
  }

  function Devices(topics: Topics): set<string> {
    set i | 0 <= i < |topics| :: topics[i].0
  }

  ghost predicate IsDevice(topics: Topics, target: string) {
    exists i :: 0 <= i < |topics| && topics[i].0 == target
  }

  class MqttDeviceProtocolPort {
    const topics: Topics
    const topicToDevice: map<string, string>
    var queues: Queues

    constructor (topics: Topics)
      ensures this.topics == topics && topicToDevice == IndexOf(topics) && queues == map[]
    {
      var index := BuildIndex(topics);
      this.topics := topics;
      this.topicToDevice := index;
      queues := map[];
    }

    /** `_on_message` and `_dispatch_message`. */
    method OnMessage(topic: string, decoded: Option<Point>)
      modifies this
      ensures queues == Dispatched(topicToDevice, old(queues), topic, decoded)
    {
      if topic !in topicToDevice {
        return;
      }
      var device := topicToDevice[topic];
      if decoded.None? {
        return;
      }
      if device !in queues {
        queues := queues[device := []];
      }
      queues := queues[device := queues[device] + [decoded.value]];
    }

    method ReadTarget(target: string) returns (result: ReadResult)
      modifies this
      ensures !IsDevice(topics, target) ==> result == UnknownTarget && queues == old(queues)
      ensures IsDevice(topics, target) ==>
                var q := QueueOf(old(queues), target);
                if q == [] then result == Got(None) && queues == old(queues)
                else result == Got(Some(q[0])) && queues == old(queues)[target := q[1..]]
    {
      if target !in Devices(topics) {
        return UnknownTarget;
      }
      if target !in queues || queues[target] == [] {
        return Got(None);
      }
      result := Got(Some(queues[target][0]));
      queues := queues[target := queues[target][1..]];
    }
  }

  // ---- runs ----

  datatype Event = Message(topic: string, decoded: Option<Point>) | Read(target: string)

  /** The queues and, per device, the points its reads have returned. */
  datatype State = State(queues: Queues, returned: Queues)

  function Step(topics: Topics, s: State, e: Event): State {
    match e
    case Message(topic, decoded) => s.(queues := Dispatched(IndexOf(topics), s.queues, topic, decoded))
    case Read(target) =>
      var q := QueueOf(s.queues, target);
      if target !in Devices(topics) || q == [] then s
      else State(s.queues[target := q[1..]], s.returned[target := QueueOf(s.returned, target) + [q[0]]])
  }

  function Run(topics: Topics, events: seq<Event>): State {
    if events == [] then State(map[], map[])
    else Step(topics, Run(topics, events[..|events| - 1]), events[|events| - 1])
  }

  /** The decodable payloads that arrived on a topic, in order. */
  function ArrivedOn(events: seq<Event>, topic: string): seq<Point> {
    if events == [] then []
    else
      var e := events[|events| - 1];
      ArrivedOn(events[..|events| - 1], topic)
      + (if e.Message? && e.topic == topic && e.decoded.Some? then [e.decoded.value] else [])
  }

  lemma OneTopicPerDevice(topics: Topics, device: string, t: string, u: string)
    requires DistinctDevices(topics)
    requires Telemetry(topics, device, t) && Telemetry(topics, device, u)
    ensures t == u
  {
    var i :| 0 <= i < |topics| && topics[i].0 == device && topics[i].1.telemetry == Some(t);
    var j :| 0 <= j < |topics| && topics[j].0 == device && topics[j].1.telemetry == Some(u);
  }

  lemma MessageRoutes(topics: Topics, s: State, e: Event, device: string, topic: string)
    requires DistinctDevices(topics) && DistinctTopics(AllStrings(topics))
    requires Telemetry(topics, device, topic) && e.Message?
    ensures QueueOf(Step(topics, s, e).queues, device)
            == QueueOf(s.queues, device)
               + (if e.topic == topic && e.decoded.Some? then [e.decoded.value] else [])
  {
    IndexIsInverse(topics, device, topic);
    IndexIsInverse(topics, device, e.topic);
    if e.topic in IndexOf(topics) && IndexOf(topics)[e.topic] == device {
      OneTopicPerDevice(topics, device, topic, e.topic);
    }
  }

  /** For accepted topics and every interleaving of messages and reads, what a device's reads have
      returned followed by what is queued for it is what could be decoded of the messages on its
      telemetry topic, in order of arrival. */
  lemma {:induction false} RoutedInOrder(topics: Topics, events: seq<Event>, device: string, topic: string)
    requires DistinctDevices(topics) && DistinctTopics(AllStrings(topics))
    requires Telemetry(topics, device, topic)
    ensures var s := Run(topics, events);
            QueueOf(s.returned, device) + QueueOf(s.queues, device) == ArrivedOn(events, topic)
  {
    if events != [] {
      var n := |events| - 1;
      var e, s := events[n], Run(topics, events[..n]);
      RoutedInOrder(topics, events[..n], device, topic);
      if e.Message? {
        MessageRoutes(topics, s, e, device, topic);
        assert Step(topics, s, e).returned == s.returned;
      } else {
        ReadMoves(topics, s, e.target, device);
        assert ArrivedOn(events, topic) == ArrivedOn(events[..n], topic);
      }
    }
  }

  lemma ReadMoves(topics: Topics, s: State, target: string, device: string)
    ensures var s' := Step(topics, s, Read(target));
            QueueOf(s'.returned, device) + QueueOf(s'.queues, device)
            == QueueOf(s.returned, device) + QueueOf(s.queues, device)
  {
    var q, r := QueueOf(s.queues, device), QueueOf(s.returned, device);
    if target == device && q != [] {
      assert r + q == (r + [q[0]]) + q[1..];
    }
  }

  /** After any run a read of a device takes the next of what has arrived for it: the decodable payload
      that comes after those returned so far, if there is one; and leaves what others have. */
  lemma ReadTakesNext(topics: Topics, events: seq<Event>, device: string, topic: string)
    requires DistinctDevices(topics) && DistinctTopics(AllStrings(topics))
    requires Telemetry(topics, device, topic)
    ensures var before, arrived := QueueOf(Run(topics, events).returned, device), ArrivedOn(events, topic);
            var after := Run(topics, events + [Read(device)]);
            && |before| <= |arrived|
            && QueueOf(after.returned, device)
               == before + (if |before| < |arrived| then [arrived[|before|]] else [])
            && forall d :: d != device ==>
                 && QueueOf(after.returned, d) == QueueOf(Run(topics, events).returned, d)
                 && QueueOf(after.queues, d) == QueueOf(Run(topics, events).queues, d)
  {
    var s := Run(topics, events);
    var q, r := QueueOf(s.queues, device), QueueOf(s.returned, device);
    RoutedInOrder(topics, events, device, topic);
    var more := events + [Read(device)];
    assert more[..|more| - 1] == events;
    SubscriberIsDevice(topics, device, topic);
    assert r + q == ArrivedOn(events, topic);
  }

  lemma SubscriberIsDevice(topics: Topics, device: string, topic: string)
    requires Telemetry(topics, device, topic)
    ensures device in Devices(topics)
  {
  }

  /** A device without a telemetry topic never gets anything. */
  lemma {:induction false} SilentWithoutTopic(topics: Topics, events: seq<Event>, device: string)
    requires DistinctTopics(AllStrings(topics))
    requires forall topic :: !Telemetry(topics, device, topic)
    ensures QueueOf(Run(topics, events).queues, device) == [] && QueueOf(Run(topics, events).returned, device) == []
  {
    if events != [] {
      var n := |events| - 1;
      SilentWithoutTopic(topics, events[..n], device);
      if events[n].Message? {
        IndexIsInverse(topics, device, events[n].topic);
      }
    }
  }
}
