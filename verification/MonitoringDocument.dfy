/** From a configuration file to the monitoring settings and back, by the paths of the document: what
    src/config_manager.cpp reads where, and under which keys it writes. */
module MonitoringDocument {
  import opened Options
  import opened ConfigIndex
  import opened ConfigValues

  // ----- what a path of the document gives -----

  function IntAt(doc: Json, path: seq<string>, default: int): int {
    match Walk(doc, path)
    case None => default
    case Some(v) => match StoI(TextOf(v)) { case Some(n) => n case None => default }
  }

  function BoolAt(doc: Json, path: seq<string>, default: bool): bool {
    match Walk(doc, path)
    case None => default
    case Some(v) => Lower(TextOf(v)) in {"true", "1", "yes", "on"}
  }

  /** An integer of the document that fits an int is the setting; without a leaf there, or with an
      integer that does not fit, the default is. */
  lemma IntAtExactly(doc: Json, path: seq<string>, default: int)
    ensures Walk(doc, path) == None ==> IntAt(doc, path, default) == default
    ensures forall n: JsonInteger :: Walk(doc, path) == Some(Integer(n)) ==>
              IntAt(doc, path, default) == if -0x8000_0000 <= n <= 0x7FFF_FFFF then n
                                           else if -0x8000_0000 <= AsLongLong(n) <= 0x7FFF_FFFF then AsLongLong(n)
                                           else default
  {
    forall n: JsonInteger | Walk(doc, path) == Some(Integer(n))
      ensures IntAt(doc, path, default) == if INT_MIN <= AsLongLong(n) <= INT_MAX then AsLongLong(n) else default
    {
      var v := AsLongLong(n);
      if INT_MIN <= v <= INT_MAX { IntRoundTrip(v); } else { OutOfRangeIsRefused(v); }
    }
  }

  lemma BoolAtExactly(doc: Json, path: seq<string>, default: bool)
    ensures Walk(doc, path) == None ==> BoolAt(doc, path, default) == default
    ensures forall b :: Walk(doc, path) == Some(Boolean(b)) ==> BoolAt(doc, path, default) == b
  {
    forall b | Walk(doc, path) == Some(Boolean(b)) ensures BoolAt(doc, path, default) == b {
      BoolRoundTrip(map["" := BoolText(b)], "", default, b);
    }
  }

  lemma GetIntAt(dump: Json -> string, doc: Json, path: seq<string>, default: int)
    requires doc.Obj? && GoodTree(doc) && Height(doc) <= 100 && GoodPath(path)
    ensures GetInt(Index(dump, doc), Joined(path), default) == IntAt(doc, path, default)
  {
    ShallowLookupIsWalk(dump, doc, path);
  }

  lemma GetBoolAt(dump: Json -> string, doc: Json, path: seq<string>, default: bool)
    requires doc.Obj? && GoodTree(doc) && Height(doc) <= 100 && GoodPath(path)
    ensures GetBool(Index(dump, doc), Joined(path), default) == BoolAt(doc, path, default)
  {
    ShallowLookupIsWalk(dump, doc, path);
  }

  /** A text of the document is read as itself. */
  lemma GetTextAt(dump: Json -> string, doc: Json, path: seq<string>, text: string, default: string)
    requires doc.Obj? && GoodTree(doc) && Height(doc) <= 100 && GoodPath(path)
    requires Walk(doc, path) == Some(Text(text))
    ensures GetString(Index(dump, doc), Joined(path), default) == text
  {
    ShallowLookupIsWalk(dump, doc, path);
  }

  // ----- the nine paths -----

  function WebSocketPath(name: string): seq<string> {
    ["monitoring", "websocket", name]
  }

  function JobTrackingPath(name: string): seq<string> {
    ["monitoring", "job_tracking", name]
  }

  lemma JoinedThree(a: string, b: string, c: string)
    ensures Joined([a, b, c]) == a + "." + b + "." + c
  {
    var p := [a, b, c];
    assert p[1..] == [b, c] && [b, c][1..] == [c];
    assert Joined([b, c]) == b + "." + Joined([c]);
    assert a + "." + (b + "." + c) == a + "." + b + "." + c;
  }

  ghost predicate IsKeyOf(key: string, path: seq<string>) {
    GoodPath(path) && Joined(path) == key
  }

  lemma WebSocketKey(name: string)
    requires GoodKey(name)
    ensures IsKeyOf(WEB_SOCKET + name, WebSocketPath(name))
  {
    JoinedThree("monitoring", "websocket", name);
    assert "monitoring" + "." + "websocket" + "." == WEB_SOCKET;
  }

  lemma JobTrackingKey(name: string)
    requires GoodKey(name)
    ensures IsKeyOf(JOB_TRACKING + name, JobTrackingPath(name))
  {
    JoinedThree("monitoring", "job_tracking", name);
    assert "monitoring" + "." + "job_tracking" + "." == JOB_TRACKING;
  }

  lemma EnabledKey()
    ensures IsKeyOf(ENABLED, WebSocketPath("enabled"))
  {
    WebSocketKey("enabled");
  }

  lemma PortKey()
    ensures IsKeyOf(PORT, WebSocketPath("port"))
  {
    WebSocketKey("port");
  }

  lemma MaxConnectionsKey()
    ensures IsKeyOf(MAX_CONNECTIONS, WebSocketPath("max_connections"))
  {
    WebSocketKey("max_connections");
  }

  lemma HeartbeatKey()
    ensures IsKeyOf(HEARTBEAT, WebSocketPath("heartbeat_interval"))
  {
    WebSocketKey("heartbeat_interval");
  }

  lemma QueueSizeKey()
    ensures IsKeyOf(QUEUE_SIZE, WebSocketPath("message_queue_size"))
  {
    WebSocketKey("message_queue_size");
  }

  lemma ProgressKey()
    ensures IsKeyOf(PROGRESS, JobTrackingPath("progress_update_interval"))
  {
    JobTrackingKey("progress_update_interval");
  }

  lemma StreamingKey()
    ensures IsKeyOf(STREAMING, JobTrackingPath("log_streaming_enabled"))
  {
    JobTrackingKey("log_streaming_enabled");
  }

  lemma MetricsKey()
    ensures IsKeyOf(METRICS, JobTrackingPath("metrics_collection_enabled"))
  {
    JobTrackingKey("metrics_collection_enabled");
  }

  lemma WarningKey()
    ensures IsKeyOf(WARNING, JobTrackingPath("timeout_warning_threshold"))
  {
    JobTrackingKey("timeout_warning_threshold");
  }

  // ----- reading -----

  lemma ReadInt(dump: Json -> string, doc: Json, path: seq<string>, key: string, default: int)
    requires doc.Obj? && GoodTree(doc) && Height(doc) <= 100 && IsKeyOf(key, path)
    ensures GetInt(Index(dump, doc), key, default) == IntAt(doc, path, default)
  {
    GetIntAt(dump, doc, path, default);
  }

  lemma ReadBool(dump: Json -> string, doc: Json, path: seq<string>, key: string, default: bool)
    requires doc.Obj? && GoodTree(doc) && Height(doc) <= 100 && IsKeyOf(key, path)
    ensures GetBool(Index(dump, doc), key, default) == BoolAt(doc, path, default)
  {
    GetBoolAt(dump, doc, path, default);
  }

  /** The monitoring settings after loading a document are what stands at these nine paths of it, with
      these defaults. */
  lemma SettingsOfDocument(dump: Json -> string, doc: Json)
    requires doc.Obj? && GoodTree(doc) && Height(doc) <= 100
    ensures var c := MonitoringFrom(Index(dump, doc));
            var w, j := c.websocket, c.jobTracking;
            && w.enabled == BoolAt(doc, WebSocketPath("enabled"), true)
            && w.port == IntAt(doc, WebSocketPath("port"), 8081)
            && w.maxConnections == IntAt(doc, WebSocketPath("max_connections"), 100)
            && w.heartbeatInterval == IntAt(doc, WebSocketPath("heartbeat_interval"), 30)
            && w.messageQueueSize == IntAt(doc, WebSocketPath("message_queue_size"), 1000)
            && j.progressUpdateInterval == IntAt(doc, JobTrackingPath("progress_update_interval"), 5)
            && j.logStreamingEnabled == BoolAt(doc, JobTrackingPath("log_streaming_enabled"), true)
            && j.metricsCollectionEnabled == BoolAt(doc, JobTrackingPath("metrics_collection_enabled"), true)
            && j.timeoutWarningThreshold == IntAt(doc, JobTrackingPath("timeout_warning_threshold"), 25)
  {
    EnabledKey();
    PortKey();
    MaxConnectionsKey();
    HeartbeatKey();
    QueueSizeKey();
    ProgressKey();
    StreamingKey();
    MetricsKey();
    WarningKey();
    ReadBool(dump, doc, WebSocketPath("enabled"), ENABLED, true);
    ReadInt(dump, doc, WebSocketPath("port"), PORT, 8081);
    ReadInt(dump, doc, WebSocketPath("max_connections"), MAX_CONNECTIONS, 100);
    ReadInt(dump, doc, WebSocketPath("heartbeat_interval"), HEARTBEAT, 30);
    ReadInt(dump, doc, WebSocketPath("message_queue_size"), QUEUE_SIZE, 1000);
    ReadInt(dump, doc, JobTrackingPath("progress_update_interval"), PROGRESS, 5);
    ReadBool(dump, doc, JobTrackingPath("log_streaming_enabled"), STREAMING, true);
    ReadBool(dump, doc, JobTrackingPath("metrics_collection_enabled"), METRICS, true);
    ReadInt(dump, doc, JobTrackingPath("timeout_warning_threshold"), WARNING, 25);
  }

  // ----- writing -----

  ghost predicate IsWritten(m: map<string, string>, path: seq<string>, text: string) {
    exists key :: key in m && IsKeyOf(key, path) && m[key] == text
  }

  lemma WebSocketWritten(c: MonitoringConfig)
    ensures var m, w := ConfigToMap(c), c.websocket;
            && IsWritten(m, WebSocketPath("enabled"), BoolText(w.enabled))
            && IsWritten(m, WebSocketPath("port"), ToString(w.port))
            && IsWritten(m, WebSocketPath("max_connections"), ToString(w.maxConnections))
            && IsWritten(m, WebSocketPath("heartbeat_interval"), ToString(w.heartbeatInterval))
            && IsWritten(m, WebSocketPath("message_queue_size"), ToString(w.messageQueueSize))
  {
    var m, w := ConfigToMap(c), c.websocket;
    KeysAreDistinct();
    assert m[ENABLED] == BoolText(w.enabled) && m[PORT] == ToString(w.port)
        && m[MAX_CONNECTIONS] == ToString(w.maxConnections) && m[HEARTBEAT] == ToString(w.heartbeatInterval)
        && m[QUEUE_SIZE] == ToString(w.messageQueueSize);
    EnabledKey();
    PortKey();
    MaxConnectionsKey();
    HeartbeatKey();
    QueueSizeKey();
  }

  lemma JobTrackingWritten(c: MonitoringConfig)
    ensures var m, j := ConfigToMap(c), c.jobTracking;
            && IsWritten(m, JobTrackingPath("progress_update_interval"), ToString(j.progressUpdateInterval))
            && IsWritten(m, JobTrackingPath("log_streaming_enabled"), BoolText(j.logStreamingEnabled))
            && IsWritten(m, JobTrackingPath("metrics_collection_enabled"), BoolText(j.metricsCollectionEnabled))
            && IsWritten(m, JobTrackingPath("timeout_warning_threshold"), ToString(j.timeoutWarningThreshold))
  {
    var m, j := ConfigToMap(c), c.jobTracking;
    KeysAreDistinct();
    assert m[PROGRESS] == ToString(j.progressUpdateInterval) && m[STREAMING] == BoolText(j.logStreamingEnabled)
        && m[METRICS] == BoolText(j.metricsCollectionEnabled) && m[WARNING] == ToString(j.timeoutWarningThreshold);
    ProgressKey();
    StreamingKey();
    MetricsKey();
    WarningKey();
  }

  /** An update writes each setting under its path, and nothing else. */
  lemma WrittenUnderPaths(c: MonitoringConfig)
    ensures var m, w, j := ConfigToMap(c), c.websocket, c.jobTracking;
            && |m.Keys| == 9
            && IsWritten(m, WebSocketPath("enabled"), BoolText(w.enabled))
            && IsWritten(m, WebSocketPath("port"), ToString(w.port))
            && IsWritten(m, WebSocketPath("max_connections"), ToString(w.maxConnections))
            && IsWritten(m, WebSocketPath("heartbeat_interval"), ToString(w.heartbeatInterval))
            && IsWritten(m, WebSocketPath("message_queue_size"), ToString(w.messageQueueSize))
            && IsWritten(m, JobTrackingPath("progress_update_interval"), ToString(j.progressUpdateInterval))
            && IsWritten(m, JobTrackingPath("log_streaming_enabled"), BoolText(j.logStreamingEnabled))
            && IsWritten(m, JobTrackingPath("metrics_collection_enabled"), BoolText(j.metricsCollectionEnabled))
            && IsWritten(m, JobTrackingPath("timeout_warning_threshold"), ToString(j.timeoutWarningThreshold))
  {
    KeysAreDistinct();
    KeysOfMap(c);
    WebSocketWritten(c);
    JobTrackingWritten(c);
  }

  // ----- below the depth limit -----

  // Follows a path of keys to a node, leaf or not.
  function Node(json: Json, path: seq<string>): Option<Json>
    decreases |path|
  {
    if path == [] then Some(json)
    else if json.Leaf? then None
    else NodeOf(json.members, path, |json.members|)
  }

  function NodeOf(ms: seq<Member>, path: seq<string>, n: nat): Option<Json>
    requires path != [] && n <= |ms|
    decreases |path|, n
  {
    if n == 0 then None
    else if ms[n - 1].key == path[0] then Node(ms[n - 1].value, path[1..])
    else NodeOf(ms, path, n - 1)
  }

  lemma {:induction false} NodeInMembers(ms: seq<Member>, path: seq<string>, n: nat) returns (i: nat)
    requires path != [] && n <= |ms| && NodeOf(ms, path, n).Some?
    ensures i < n && ms[i].key == path[0] && Node(ms[i].value, path[1..]) == NodeOf(ms, path, n)
  {
    if ms[n - 1].key == path[0] { i := n - 1; } else { i := NodeInMembers(ms, path, n - 1); }
  }

  lemma {:induction false} TruncatedNode(dump: Json -> string, json: Json, path: seq<string>)
    requires UniqueTree(json) && Node(json, path).Some? && Node(json, path).value.Obj?
    ensures Walk(Truncate(dump, json, |path|), path + ["deep_nested"]) == Some(Text(dump(Node(json, path).value)))
    decreases |path|
  {
    var tree, more := Truncate(dump, json, |path|), path + ["deep_nested"];
    if path == [] {
      assert more[0] == "deep_nested" && more[1..] == [];
      WalkMember(tree.members, more, 1, 0);
    } else {
      var i := NodeInMembers(json.members, path, |json.members|);
      TruncatedNode(dump, json.members[i].value, path[1..]);
      TruncatedMember(dump, json.members, |path| - 1, i);
      TruncateKeepsUnique(dump, json, |path|);
      assert more[0] == path[0] && more[1..] == path[1..] + ["deep_nested"];
      WalkMember(tree.members, more, |tree.members|, i);
    }
  }

  /** An object a hundred keys deep is not indexed further: its text is stored under "deep_nested". */
  lemma DeepObjectIsDumped(dump: Json -> string, doc: Json, path: seq<string>)
    requires doc.Obj? && GoodTree(doc) && GoodPath(path) && |path| == 100
    requires Node(doc, path).Some? && Node(doc, path).value.Obj?
    ensures var key := Joined(path + ["deep_nested"]);
            key in Index(dump, doc) && Index(dump, doc)[key] == dump(Node(doc, path).value)
  {
    GoodIsUnique(doc);
    TruncatedNode(dump, doc, path);
    LookupIsWalk(dump, doc, path + ["deep_nested"]);
  }

  lemma {:induction false} GoodIsUnique(json: Json)
    requires GoodTree(json)
    ensures UniqueTree(json)
    decreases json
  {
    if json.Obj? {
      forall i | 0 <= i < |json.members| ensures UniqueTree(json.members[i].value) {
        GoodIsUnique(json.members[i].value);
      }
    }
  }
}
