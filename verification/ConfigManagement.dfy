/** ConfigManager of src/config_manager.cpp: the flat map `configData`, filled by flattening a
    document and updated one section at a time. */
module ConfigManagement {
  import opened Options
  import opened ConfigIndex
  import opened ConfigValues

  // What reading the file gives: it cannot be opened, it is not JSON, or it is a document.
  datatype File = Missing | Malformed | Parsed(doc: Json)

  // The address of a JSON node is its position in the tree: distinct nodes, distinct addresses.
  type Address = seq<nat>

  ghost predicate Unvisited(at: Address, visited: set<Address>) {
    forall v :: v in visited ==> !(at <= v)
  }

  // Of the node at `at` and what is below it, only the first i members have been visited.
  ghost predicate VisitedUpTo(at: Address, i: nat, visited: set<Address>) {
    forall v :: v in visited && at <= v ==> v == at || v[|at|] < i
  }

  // Every node seen on top of `before` is the one at `at` or below it.
  ghost predicate OnlyBelow(at: Address, before: set<Address>, seen: set<Address>) {
    forall v :: v in seen ==> v in before || at <= v
  }

  lemma MemberAddress(at: Address, i: nat, v: Address)
    requires at + [i] <= v
    ensures at <= v && v != at && v[|at|] == i
  {
    assert v[|at|] == (at + [i])[|at|];
  }

  lemma NextMemberUnvisited(at: Address, i: nat, visited: set<Address>)
    requires VisitedUpTo(at, i, visited)
    ensures Unvisited(at + [i], visited)
  {
    forall v | v in visited ensures !(at + [i] <= v) {
      if at + [i] <= v {
        MemberAddress(at, i, v);
        assert false;
      }
    }
  }

  lemma MemberVisited(at: Address, i: nat, before: set<Address>, after: set<Address>)
    requires VisitedUpTo(at, i, before)
    requires OnlyBelow(at + [i], before, after)
    ensures VisitedUpTo(at, i + 1, after)
  {
    forall v | v in after && at <= v ensures v == at || v[|at|] < i + 1 {
      if v !in before { MemberAddress(at, i, v); }
    }
  }

  lemma OnlyBelowGrows(at: Address, i: nat, visited: set<Address>, before: set<Address>, after: set<Address>)
    requires OnlyBelow(at, visited, before) && OnlyBelow(at + [i], before, after)
    ensures OnlyBelow(at, visited, after)
  {
    forall v | v in after ensures v in visited || at <= v {
      if v !in before { MemberAddress(at, i, v); }
    }
  }

  // Storing the entries of the first i members, then those of the next one.
  lemma OneMoreMember(dump: Json -> string, m: map<string, string>, ms: seq<Member>, i: nat,
                      prefix: string, depth: nat, maxDepth: nat)
    requires i < |ms|
    ensures StoreAll(StoreAll(m, FlatMembers(dump, ms[..i], prefix, depth, maxDepth)),
                     FlatMember(dump, ms[i], prefix, depth, maxDepth))
         == StoreAll(m, FlatMembers(dump, ms[..i + 1], prefix, depth, maxDepth))
  {
    var before := FlatMembers(dump, ms[..i], prefix, depth, maxDepth);
    StoreConcat(m, before, FlatMember(dump, ms[i], prefix, depth, maxDepth));
    assert ms[..i + 1][..i] == ms[..i];
  }

  lemma StoreOne(m: map<string, string>, e: Entry)
    ensures StoreAll(m, [e]) == m[e.key := e.text]
  {
    assert [e][..0] == [];
  }

  /** Asking the index of a document for a dotted path answers what walking the document finds, and
      the default when there is no leaf. */
  lemma GetStringIsWalk(dump: Json -> string, doc: Json, path: seq<string>, default: string)
    requires doc.Obj? && GoodTree(doc) && Height(doc) <= MAX_DEPTH && GoodPath(path)
    ensures GetString(Index(dump, doc), Joined(path), default) ==
            match Walk(doc, path) { case Some(value) => TextOf(value) case None => default }
  {
    ShallowLookupIsWalk(dump, doc, path);
  }

  /** An integer of the document is read as itself, or as the default if it does not fit an int. What
      only an unsigned 64-bit number can hold is read as its two's complement. */
  lemma GetIntIsWalk(dump: Json -> string, doc: Json, path: seq<string>, n: JsonInteger, default: int)
    requires doc.Obj? && GoodTree(doc) && Height(doc) <= MAX_DEPTH && GoodPath(path)
    requires Walk(doc, path) == Some(Integer(n))
    ensures var v := AsLongLong(n);
            GetInt(Index(dump, doc), Joined(path), default) == if INT_MIN <= v <= INT_MAX then v else default
  {
    ShallowLookupIsWalk(dump, doc, path);
    var v := AsLongLong(n);
    if INT_MIN <= v <= INT_MAX { IntRoundTrip(v); } else { OutOfRangeIsRefused(v); }
  }

  /** A boolean of the document is read as itself. */
  lemma GetBoolIsWalk(dump: Json -> string, doc: Json, path: seq<string>, b: bool, default: bool)
    requires doc.Obj? && GoodTree(doc) && Height(doc) <= MAX_DEPTH && GoodPath(path)
    requires Walk(doc, path) == Some(Boolean(b))
    ensures GetBool(Index(dump, doc), Joined(path), default) == b
  {
    ShallowLookupIsWalk(dump, doc, path);
    BoolRoundTrip(Index(dump, doc), Joined(path), default, b);
  }

  // Every monitoring key has the text that prints c.
  ghost predicate Holds(m: map<string, string>, c: MonitoringConfig) {
    forall k :: k in ConfigToMap(c) ==> k in m && m[k] == ConfigToMap(c)[k]
  }

  const DEFAULTS :=
    MonitoringConfig(WebSocketConfig(true, 8081, 100, 30, 1000), JobTrackingConfig(5, true, true, 25))

  lemma UpdateOne(m: map<string, string>, updates: map<string, string>, keys: set<string>, key: string)
    requires key in keys && keys <= updates.Keys
    ensures (m + (updates - keys))[key := updates[key]] == m + (updates - (keys - {key}))
  {
  }

  class ConfigManager {
    var configData: map<string, string>
    const dump: Json -> string

    constructor (dump: Json -> string)
      ensures configData == map[] && this.dump == dump
    {
      configData := map[];
      this.dump := dump;
    }

    /** One call on the node at address `at`. Called on a node nothing below which was visited, it
        never takes the circular-reference branch and stores exactly the entries of Flat. Iterating
        over a non-empty array or a scalar throws: `ok` is false. */
    method FlattenJson(json: Json, prefix: string, currentDepth: nat, maxDepth: nat, at: Address, visited: set<Address>)
      returns (ok: bool, seen: set<Address>)
      modifies this
      ensures Unvisited(at, visited) && json.Obj? ==>
                ok && configData == StoreAll(old(configData), Flat(dump, json, prefix, currentDepth, maxDepth))
      ensures Unvisited(at, visited) && json.Leaf? && currentDepth < maxDepth ==>
                configData == old(configData) && ok == (Elements(json.value) == 0)
      ensures OnlyBelow(at, visited, seen)
      decreases json, 1
    {
      seen := visited;
      if currentDepth >= maxDepth {
        var key := if prefix == "" then DEEP else prefix + "." + DEEP;
        configData := configData[key := dump(json)];
        StoreOne(old(configData), Entry(key, dump(json)));
        return true, seen;
      }
      if at in visited {
        var key := if prefix == "" then "circular_ref" else prefix + "." + "circular_ref";
        configData := configData[key := "circular reference detected"];
        return true, seen;
      }
      seen := seen + {at};
      if json.Leaf? { return Elements(json.value) == 0, seen; }
      seen := FlattenMembers(json, prefix, currentDepth, maxDepth, at, seen);
      return true, seen;
    }

    // The loop over the members of one object.
    method FlattenMembers(json: Json, prefix: string,
                          currentDepth: nat, maxDepth: nat, at: Address, visited: set<Address>)
      returns (seen: set<Address>)
      requires currentDepth < maxDepth && json.Obj?
      modifies this
      ensures VisitedUpTo(at, 0, visited) ==>
                configData == StoreAll(old(configData), FlatMembers(dump, json.members, prefix, currentDepth, maxDepth))
      ensures OnlyBelow(at, visited, seen)
      decreases json, 0
    {
      var ms := json.members;
      seen := visited;
      for i := 0 to |ms|
        invariant VisitedUpTo(at, 0, visited) ==>
                    VisitedUpTo(at, i, seen)
                    && configData == StoreAll(old(configData),
                                              FlatMembers(dump, ms[..i], prefix, currentDepth, maxDepth))
        invariant OnlyBelow(at, visited, seen)
      {
        ghost var before := seen;
        OneMoreMember(dump, old(configData), ms, i, prefix, currentDepth, maxDepth);
        if VisitedUpTo(at, 0, visited) { NextMemberUnvisited(at, i, before); }
        seen := FlattenMember(ms[i], prefix, currentDepth, maxDepth, at + [i], seen);
        OnlyBelowGrows(at, i, visited, before, seen);
        if VisitedUpTo(at, 0, visited) { MemberVisited(at, i, before, seen); }
      }
      assert ms[..|ms|] == ms;
    }

    // The loop body.
    method FlattenMember(m: Member, prefix: string,
                         currentDepth: nat, maxDepth: nat, at: Address, visited: set<Address>)
      returns (seen: set<Address>)
      modifies this
      ensures Unvisited(at, visited) ==>
                configData == StoreAll(old(configData), FlatMember(dump, m, prefix, currentDepth, maxDepth))
      ensures OnlyBelow(at, visited, seen)
      decreases m
    {
      var key := if prefix == "" then m.key else prefix + "." + m.key;
      seen := visited;
      if m.value.Obj? {
        var ok;
        ok, seen := FlattenJson(m.value, key, currentDepth + 1, maxDepth, at, seen);
      } else {
        configData := configData[key := TextOf(m.value.value)];
        StoreOne(old(configData), Entry(key, TextOf(m.value.value)));
      }
    }

    /** A file that cannot be read leaves the configuration alone; a document that is an object
        replaces it by its index; any other document clears it. */
    method ParseConfigFile(file: File) returns (ok: bool)
      modifies this
      ensures !file.Parsed? ==> !ok && configData == old(configData)
      ensures file.Parsed? && file.doc.Obj? ==> ok && configData == Index(dump, file.doc)
      ensures file.Parsed? && file.doc.Leaf? ==> configData == map[] && ok == (Elements(file.doc.value) == 0)
    {
      if !file.Parsed? { return false; }
      configData := map[];
      var seen;
      ok, seen := FlattenJson(file.doc, "", 0, MAX_DEPTH, [], {});
    }

    // Iterates in no particular order.
    method UpdateConfigData(updates: map<string, string>)
      modifies this
      ensures configData == old(configData) + updates
    {
      var keys := updates.Keys;
      while keys != {}
        invariant keys <= updates.Keys
        invariant configData == old(configData) + (updates - keys)
        decreases |keys|
      {
        var key :| key in keys;
        UpdateOne(old(configData), updates, keys, key);
        configData := configData[key := updates[key]];
        keys := keys - {key};
      }
      assert updates - keys == updates;
    }

    /** Returns whatever configuration the map holds, in whatever way it came to hold it; each
        missing or unreadable entry gives its default. */
    method GetMonitoringConfig() returns (config: MonitoringConfig)
      ensures config == MonitoringFrom(configData)
      ensures forall c :: Holds(configData, c) ==> config == c
      ensures configData.Keys !! MONITORING_KEYS ==> config == DEFAULTS
    {
      config := MonitoringFrom(configData);
      forall c | Holds(configData, c) ensures config == c {
        MonitoringRoundTrip(configData, c);
        assert configData + ConfigToMap(c) == configData;
      }
    }

    /** An update succeeds exactly for a valid configuration; then reading the section returns it and
        no other key changed. A refused update changes nothing. */
    method UpdateMonitoringConfig(newConfig: MonitoringConfig) returns (ok: bool)
      modifies this
      ensures ok <==> IsValid(newConfig)
      ensures var w, j := newConfig.websocket, newConfig.jobTracking;
              ok <==> (1 <= w.port < 0x1_0000 && w.maxConnections >= 1 && w.heartbeatInterval >= 1
                       && w.messageQueueSize >= 1 && j.progressUpdateInterval >= 1 && j.timeoutWarningThreshold >= 1)
      ensures ok ==> MonitoringFrom(configData) == newConfig
                     && configData.Keys == old(configData.Keys) + MONITORING_KEYS
                     && forall k :: k in old(configData) && k !in MONITORING_KEYS ==>
                          configData[k] == old(configData)[k]
      ensures !ok ==> configData == old(configData)
    {
      if !IsValid(newConfig) { return false; }
      UpdateConfigData(ConfigToMap(newConfig));
      MonitoringRoundTrip(old(configData), newConfig);
      KeysOfMap(newConfig);
      return true;
    }
  }
}
