/** How src/config_manager.cpp prints configuration values and reads them back. */
module ConfigValues {
  import opened Options

  const INT_MIN := -0x8000_0000
  const INT_MAX := 0x7FFF_FFFF

  // ----- std::to_string -----

  function Digit(d: nat): char
    requires d < 10
  {
    "0123456789"[d]
  }

  function Digits(n: nat): string {
    if n < 10 then [Digit(n)] else Digits(n / 10) + [Digit(n % 10)]
  }

  function ToString(n: int): string {
    if n < 0 then "-" + Digits(-n) else Digits(n)
  }

  // ----- std::stoi -----

  predicate IsDigit(c: char) {
    '0' <= c <= '9'
  }

  predicate IsSpace(c: char) {
    c == ' ' || 9 <= c as int <= 13
  }

  function SkipSpaces(s: string): string {
    if s != "" && IsSpace(s[0]) then SkipSpaces(s[1..]) else s
  }

  // The value of the leading digits, or None without any.
  function LeadingNumber(s: string, sofar: nat): nat {
    if s != "" && IsDigit(s[0]) then LeadingNumber(s[1..], sofar * 10 + (s[0] as int - '0' as int)) else sofar
  }

  // None stands for invalid_argument and out_of_range; trailing characters are ignored.
  function StoI(s: string): Option<int> {
    var t := SkipSpaces(s);
    var negative := t != "" && t[0] == '-';
    var u := if t != "" && (t[0] == '-' || t[0] == '+') then t[1..] else t;
    if u == "" || !IsDigit(u[0]) then None else
      var n: int := LeadingNumber(u, 0);
      var v: int := if negative then -n else n;
      if INT_MIN <= v <= INT_MAX then Some(v) else None
  }

  lemma ReadDigit(d: nat, rest: string, sofar: nat)
    requires d < 10
    ensures IsDigit(Digit(d)) && LeadingNumber([Digit(d)] + rest, sofar) == LeadingNumber(rest, sofar * 10 + d)
  {
    assert ([Digit(d)] + rest)[1..] == rest;
  }

  // Reading the digits of n and going on.
  lemma {:induction false} DigitsThen(n: nat, rest: string)
    ensures Digits(n) != "" && IsDigit(Digits(n)[0])
    ensures LeadingNumber(Digits(n) + rest, 0) == LeadingNumber(rest, n)
  {
    var d := n % 10;
    if n < 10 {
      ReadDigit(n, rest, 0);
    } else {
      assert Digits(n) + rest == Digits(n / 10) + ([Digit(d)] + rest);
      DigitsThen(n / 10, [Digit(d)] + rest);
      ReadDigit(d, rest, n / 10);
    }
  }

  /** stoi inverts to_string on every int. */
  lemma IntRoundTrip(n: int)
    requires INT_MIN <= n <= INT_MAX
    ensures StoI(ToString(n)) == Some(n)
  {
    var m: nat := if n < 0 then -n else n;
    DigitsThen(m, "");
    assert Digits(m) + "" == Digits(m);
    if n < 0 { assert ToString(n)[1..] == Digits(m); }
  }

  /** Beyond the range of int, stoi refuses what to_string prints. */
  lemma OutOfRangeIsRefused(n: int)
    requires !(INT_MIN <= n <= INT_MAX)
    ensures StoI(ToString(n)) == None
  {
    var m: nat := if n < 0 then -n else n;
    DigitsThen(m, "");
    assert Digits(m) + "" == Digits(m);
    if n < 0 { assert ToString(n)[1..] == Digits(m); }
  }

  predicate IsSpaces(w: string) {
    forall i :: 0 <= i < |w| ==> IsSpace(w[i])
  }

  lemma {:induction false} SpacesAreSkipped(w: string, t: string)
    requires IsSpaces(w)
    ensures SkipSpaces(w + t) == SkipSpaces(t)
  {
    if w == "" {
      assert w + t == t;
    } else {
      assert (w + t)[1..] == w[1..] + t;
      SpacesAreSkipped(w[1..], t);
    }
  }

  predicate IsSign(sign: string) {
    sign == "" || sign == "+" || sign == "-"
  }

  lemma SignThen(sign: string, t: string)
    requires IsSign(sign) && t != "" && IsDigit(t[0])
    ensures var n: int := LeadingNumber(t, 0);
            var v := if sign == "-" then -n else n;
            StoI(sign + t) == if INT_MIN <= v <= INT_MAX then Some(v) else None
  {
    if sign == "" { assert sign + t == t; } else { assert (sign + t)[1..] == t; }
  }

  /** stoi reads white space, a sign and digits, and ignores what follows the digits; a value outside
      int is refused. */
  lemma NumberIsRead(spaces: string, sign: string, n: nat, rest: string)
    requires IsSpaces(spaces) && IsSign(sign) && (rest == "" || !IsDigit(rest[0]))
    ensures var m: int := n;
            var v := if sign == "-" then -m else m;
            StoI(spaces + (sign + (Digits(n) + rest))) == if INT_MIN <= v <= INT_MAX then Some(v) else None
  {
    DigitsThen(n, rest);
    SpacesAreSkipped(spaces, sign + (Digits(n) + rest));
    SignThen(sign, Digits(n) + rest);
  }

  /** Without a digit there, it refuses the text. */
  lemma NoNumberIsRefused(spaces: string, sign: string, rest: string)
    requires IsSpaces(spaces) && IsSign(sign)
    requires rest == "" || !(IsDigit(rest[0]) || (sign == "" && (IsSpace(rest[0]) || rest[0] in "+-")))
    ensures StoI(spaces + (sign + rest)) == None
  {
    SpacesAreSkipped(spaces, sign + rest);
    if sign == "" { assert sign + rest == rest; } else { assert (sign + rest)[1..] == rest; }
  }

  // ----- getters -----

  function GetString(m: map<string, string>, key: string, default: string): string {
    if key in m then m[key] else default
  }

  function GetInt(m: map<string, string>, key: string, default: int): int {
    if key in m then match StoI(m[key]) { case Some(v) => v case None => default } else default
  }

  function LowerChar(c: char): char {
    if 'A' <= c <= 'Z' then (c as int + 32) as char else c
  }

  function Lower(s: string): string {
    seq(|s|, i requires 0 <= i < |s| => LowerChar(s[i]))
  }

  function GetBool(m: map<string, string>, key: string, default: bool): bool {
    if key in m then Lower(m[key]) in {"true", "1", "yes", "on"} else default
  }

  function BoolText(b: bool): string {
    if b then "true" else "false"
  }

  // b, with some of its lower-case letters in upper case.
  predicate SameButCase(a: string, b: string) {
    && |a| == |b|
    && forall i :: 0 <= i < |b| ==> a[i] == b[i] || ('a' <= b[i] <= 'z' && a[i] as int == b[i] as int - 32)
  }

  lemma LowerIsSame(a: string, b: string)
    requires forall i :: 0 <= i < |b| ==> !('A' <= b[i] <= 'Z')
    ensures Lower(a) == b <==> SameButCase(a, b)
  {
    if Lower(a) == b {
      forall i | 0 <= i < |b| ensures a[i] == b[i] || ('a' <= b[i] <= 'z' && a[i] as int == b[i] as int - 32) {
        assert Lower(a)[i] == b[i];
      }
    }
  }

  /** A setting is true exactly if it is one of four words, in upper or lower case. */
  lemma TrueExactly(m: map<string, string>, key: string, default: bool)
    requires key in m
    ensures GetBool(m, key, default) <==>
            SameButCase(m[key], "true") || SameButCase(m[key], "1")
            || SameButCase(m[key], "yes") || SameButCase(m[key], "on")
  {
    LowerIsSame(m[key], "true");
    LowerIsSame(m[key], "1");
    LowerIsSame(m[key], "yes");
    LowerIsSame(m[key], "on");
  }

  lemma BoolRoundTrip(m: map<string, string>, key: string, default: bool, b: bool)
    requires key in m && m[key] == BoolText(b)
    ensures GetBool(m, key, default) == b
  {
    assert Lower("true") == "true";
    assert Lower("false") == "false";
    assert "false"[0] == 'f' && "true"[0] == 't' && "1"[0] == '1' && "yes"[0] == 'y' && "on"[0] == 'o';
  }

  // ----- the monitoring section -----

  type Int = n: int | INT_MIN <= n <= INT_MAX

  datatype WebSocketConfig = WebSocketConfig(
    enabled: bool, port: Int, maxConnections: Int, heartbeatInterval: Int, messageQueueSize: Int)

  datatype JobTrackingConfig = JobTrackingConfig(
    progressUpdateInterval: Int, logStreamingEnabled: bool, metricsCollectionEnabled: bool,
    timeoutWarningThreshold: Int)

  datatype MonitoringConfig = MonitoringConfig(websocket: WebSocketConfig, jobTracking: JobTrackingConfig)

  const WEB_SOCKET := "monitoring.websocket."
  const JOB_TRACKING := "monitoring.job_tracking."

  const ENABLED := WEB_SOCKET + "enabled"
  const PORT := WEB_SOCKET + "port"
  const MAX_CONNECTIONS := WEB_SOCKET + "max_connections"
  const HEARTBEAT := WEB_SOCKET + "heartbeat_interval"
  const QUEUE_SIZE := WEB_SOCKET + "message_queue_size"
  const PROGRESS := JOB_TRACKING + "progress_update_interval"
  const STREAMING := JOB_TRACKING + "log_streaming_enabled"
  const METRICS := JOB_TRACKING + "metrics_collection_enabled"
  const WARNING := JOB_TRACKING + "timeout_warning_threshold"

  const MONITORING_KEYS :=
    {ENABLED, PORT, MAX_CONNECTIONS, HEARTBEAT, QUEUE_SIZE, PROGRESS, STREAMING, METRICS, WARNING}

  function WebSocketToMap(c: WebSocketConfig): map<string, string> {
    map[ENABLED := BoolText(c.enabled), PORT := ToString(c.port), MAX_CONNECTIONS := ToString(c.maxConnections),
        HEARTBEAT := ToString(c.heartbeatInterval), QUEUE_SIZE := ToString(c.messageQueueSize)]
  }

  function JobTrackingToMap(c: JobTrackingConfig): map<string, string> {
    map[PROGRESS := ToString(c.progressUpdateInterval), STREAMING := BoolText(c.logStreamingEnabled),
        METRICS := BoolText(c.metricsCollectionEnabled), WARNING := ToString(c.timeoutWarningThreshold)]
  }

  // unordered_map::insert keeps what is already there.
  function ConfigToMap(c: MonitoringConfig): map<string, string> {
    JobTrackingToMap(c.jobTracking) + WebSocketToMap(c.websocket)
  }

  function WebSocketFrom(m: map<string, string>): WebSocketConfig {
    WebSocketConfig(GetBool(m, ENABLED, true), GetInt(m, PORT, 8081), GetInt(m, MAX_CONNECTIONS, 100),
                    GetInt(m, HEARTBEAT, 30), GetInt(m, QUEUE_SIZE, 1000))
  }

  function JobTrackingFrom(m: map<string, string>): JobTrackingConfig {
    JobTrackingConfig(GetInt(m, PROGRESS, 5), GetBool(m, STREAMING, true), GetBool(m, METRICS, true),
                      GetInt(m, WARNING, 25))
  }

  function MonitoringFrom(m: map<string, string>): MonitoringConfig {
    MonitoringConfig(WebSocketFrom(m), JobTrackingFrom(m))
  }

  // Errors only; warnings do not make a configuration invalid.
  predicate IsValid(c: MonitoringConfig) {
    && 0 < c.websocket.port <= 65535
    && 0 < c.websocket.maxConnections
    && 0 < c.websocket.heartbeatInterval
    && 0 < c.websocket.messageQueueSize
    && 0 < c.jobTracking.progressUpdateInterval
    && 0 < c.jobTracking.timeoutWarningThreshold
  }

  lemma KeysAreDistinct()
    ensures {ENABLED, PORT, MAX_CONNECTIONS, HEARTBEAT, QUEUE_SIZE} !! {PROGRESS, STREAMING, METRICS, WARNING}
    ensures |MONITORING_KEYS| == 9
  {
    assert |ENABLED| == 28 && |PORT| == 25 && |MAX_CONNECTIONS| == 36 && |HEARTBEAT| == 39;
    assert |QUEUE_SIZE| == 39 && |PROGRESS| == 48 && |STREAMING| == 45 && |METRICS| == 50 && |WARNING| == 49;
    assert HEARTBEAT[21] == 'h' && QUEUE_SIZE[21] == 'm';
  }

  lemma KeysOfMap(c: MonitoringConfig)
    ensures ConfigToMap(c).Keys == MONITORING_KEYS
  {
  }

  /** Reading a configuration back from any map it was written over returns it, valid or not. */
  lemma MonitoringRoundTrip(m: map<string, string>, c: MonitoringConfig)
    ensures MonitoringFrom(m + ConfigToMap(c)) == c
  {
    var w, j := c.websocket, c.jobTracking;
    var r := m + ConfigToMap(c);
    KeysAreDistinct();
    assert r[ENABLED] == BoolText(w.enabled) && r[PORT] == ToString(w.port)
        && r[MAX_CONNECTIONS] == ToString(w.maxConnections) && r[HEARTBEAT] == ToString(w.heartbeatInterval)
        && r[QUEUE_SIZE] == ToString(w.messageQueueSize);
    assert r[PROGRESS] == ToString(j.progressUpdateInterval) && r[STREAMING] == BoolText(j.logStreamingEnabled)
        && r[METRICS] == BoolText(j.metricsCollectionEnabled) && r[WARNING] == ToString(j.timeoutWarningThreshold);
    BoolRoundTrip(r, ENABLED, true, w.enabled);
    BoolRoundTrip(r, STREAMING, true, j.logStreamingEnabled);
    BoolRoundTrip(r, METRICS, true, j.metricsCollectionEnabled);
    IntRoundTrip(w.port);
    IntRoundTrip(w.maxConnections);
    IntRoundTrip(w.heartbeatInterval);
    IntRoundTrip(w.messageQueueSize);
    IntRoundTrip(j.progressUpdateInterval);
    IntRoundTrip(j.timeoutWarningThreshold);
  }
}
