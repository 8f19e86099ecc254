/** The flat configuration index of src/config_manager.cpp: a JSON tree flattened to dotted keys.

    A document is a tree of objects; whatever is not an object is a leaf. Members come in the order in
    which the JSON library iterates them: it keeps them sorted by key, whatever their order in the
    file. Nothing here depends on that; ConfigCollisions.dfy does. `dump` stands for the library's
    serialiser. */
module ConfigIndex {
  import opened Options
  import opened ConfigValues

  // The integers the JSON library keeps as integers: long long, or its unsigned counterpart.
  type JsonInteger = n: int | -0x8000_0000_0000_0000 <= n < 0x1_0000_0000_0000_0000

  // A float, null or array is given as the JSON library prints it, with the number of elements that
  // iterating over it visits: none for null and an empty array, one for a float.
  datatype Scalar = Text(s: string) | Integer(n: JsonInteger) | Boolean(b: bool) | Other(printed: string, size: nat)

  datatype Json = Leaf(value: Scalar) | Obj(members: seq<Member>)
  datatype Member = Member(key: string, value: Json)

  // get<long long> wraps what only its unsigned counterpart can hold.
  function AsLongLong(n: JsonInteger): int {
    if n < 0x8000_0000_0000_0000 then n else n - 0x1_0000_0000_0000_0000
  }

  // The text the code stores for a leaf.
  function TextOf(v: Scalar): string {
    match v
    case Text(s) => s
    case Integer(n) => ToString(AsLongLong(n))
    case Boolean(b) => BoolText(b)
    case Other(printed, _) => printed
  }

  // How many elements iterating over a leaf visits.
  function Elements(v: Scalar): nat {
    if v.Other? then v.size else 1
  }

  datatype Entry = Entry(key: string, text: string)

  const MAX_DEPTH: nat := 100
  const DEEP := "deep_nested"

  function Extend(prefix: string, key: string): string {
    if prefix == "" then key else prefix + "." + key
  }

  // What flattenJson stores, in order.
  function Flat(dump: Json -> string, json: Json, prefix: string, depth: nat, maxDepth: nat): seq<Entry>
    requires json.Obj?
    decreases json, 1
  {
    if depth >= maxDepth then [Entry(Extend(prefix, DEEP), dump(json))]
    else FlatMembers(dump, json.members, prefix, depth, maxDepth)
  }

  function FlatMembers(dump: Json -> string, ms: seq<Member>, prefix: string, depth: nat, maxDepth: nat): seq<Entry>
    decreases ms, 0
  {
    if ms == [] then [] else
      var n := |ms| - 1;
      FlatMembers(dump, ms[..n], prefix, depth, maxDepth) + FlatMember(dump, ms[n], prefix, depth, maxDepth)
  }

  function FlatMember(dump: Json -> string, m: Member, prefix: string, depth: nat, maxDepth: nat): seq<Entry>
    decreases m
  {
    var key := Extend(prefix, m.key);
    if m.value.Obj? then Flat(dump, m.value, key, depth + 1, maxDepth) else [Entry(key, TextOf(m.value.value))]
  }

  function StoreAll(m: map<string, string>, es: seq<Entry>): map<string, string> {
    if es == [] then m else
      var n := |es| - 1;
      StoreAll(m, es[..n])[es[n].key := es[n].text]
  }

  lemma {:induction false} StoreConcat(m: map<string, string>, a: seq<Entry>, b: seq<Entry>)
    ensures StoreAll(m, a + b) == StoreAll(StoreAll(m, a), b)
  {
    if b == [] {
      assert a + b == a;
    } else {
      var n := |b| - 1;
      StoreConcat(m, a, b[..n]);
      assert (a + b)[..|a| + n] == a + b[..n];
    }
  }

  // ----- the tree the index describes -----

  // The document with every object at the depth limit replaced by its serialisation.
  function Truncate(dump: Json -> string, json: Json, levels: nat): Json
    decreases json, 1
  {
    if json.Leaf? then json
    else if levels == 0 then Obj([Member(DEEP, Leaf(Text(dump(json))))])
    else Obj(TruncateMembers(dump, json.members, levels - 1))
  }

  function TruncateMembers(dump: Json -> string, ms: seq<Member>, levels: nat): (r: seq<Member>)
    ensures |r| == |ms|
    decreases ms, 0
  {
    if ms == [] then [] else
      var n := |ms| - 1;
      TruncateMembers(dump, ms[..n], levels) + [Member(ms[n].key, Truncate(dump, ms[n].value, levels))]
  }

  // How many objects are nested in one another.
  function Height(json: Json): nat
    decreases json, 1
  {
    if json.Leaf? then 0 else 1 + MaxHeight(json.members)
  }

  function MaxHeight(ms: seq<Member>): nat
    decreases ms, 0
  {
    if ms == [] then 0 else
      var n := |ms| - 1;
      var a, b := MaxHeight(ms[..n]), Height(ms[n].value);
      if a < b then b else a
  }

  // Follows a path of keys to a leaf.
  function Walk(json: Json, path: seq<string>): Option<Scalar>
    decreases |path|
  {
    match json
    case Leaf(value) => if path == [] then Some(value) else None
    case Obj(ms) => if path == [] then None else WalkMembers(ms, path, |ms|)
  }

  function WalkMembers(ms: seq<Member>, path: seq<string>, n: nat): Option<Scalar>
    requires path != [] && n <= |ms|
    decreases |path|, n
  {
    if n == 0 then None
    else if ms[n - 1].key == path[0] then Walk(ms[n - 1].value, path[1..])
    else WalkMembers(ms, path, n - 1)
  }

  predicate GoodKey(k: string) {
    k != "" && '.' !in k
  }

  // No object has a key twice, as in any document the JSON library builds.
  ghost predicate UniqueTree(json: Json)
    decreases json, 1
  {
    json.Obj? ==> UniqueMembers(json.members)
  }

  ghost predicate UniqueMembers(ms: seq<Member>)
    decreases ms, 0
  {
    && (forall i, j :: 0 <= i < j < |ms| ==> ms[i].key != ms[j].key)
    && (forall i :: 0 <= i < |ms| ==> UniqueTree(ms[i].value))
  }

  // Keys are non-empty and free of dots as well.
  ghost predicate GoodTree(json: Json)
    decreases json, 1
  {
    json.Obj? ==> UniqueMembers(json.members) && GoodMembers(json.members)
  }

  ghost predicate GoodMembers(ms: seq<Member>)
    decreases ms, 0
  {
    forall i :: 0 <= i < |ms| ==> GoodKey(ms[i].key) && GoodTree(ms[i].value)
  }

  ghost predicate GoodPath(path: seq<string>) {
    path != [] && forall i :: 0 <= i < |path| ==> GoodKey(path[i])
  }

  function Joined(path: seq<string>): string
    requires path != []
  {
    if |path| == 1 then path[0] else path[0] + "." + Joined(path[1..])
  }

  // ----- flattening a capped tree is flattening a truncated one -----

  function Plain(json: Json, prefix: string): seq<Entry>
    requires json.Obj?
    decreases json, 1
  {
    PlainMembers(json.members, prefix)
  }

  function PlainMembers(ms: seq<Member>, prefix: string): seq<Entry>
    decreases ms, 0
  {
    if ms == [] then [] else
      var n := |ms| - 1;
      PlainMembers(ms[..n], prefix) + PlainMember(ms[n], prefix)
  }

  function PlainMember(m: Member, prefix: string): seq<Entry>
    decreases m
  {
    var key := Extend(prefix, m.key);
    if m.value.Obj? then Plain(m.value, key) else [Entry(key, TextOf(m.value.value))]
  }

  lemma {:induction false} FlatIsPlain(dump: Json -> string, json: Json, prefix: string, depth: nat, maxDepth: nat)
    requires json.Obj? && depth <= maxDepth
    ensures Truncate(dump, json, maxDepth - depth).Obj?
    ensures Flat(dump, json, prefix, depth, maxDepth) == Plain(Truncate(dump, json, maxDepth - depth), prefix)
    decreases json, 1
  {
    if depth == maxDepth {
      var ms := [Member(DEEP, Leaf(Text(dump(json))))];
      assert ms[..0] == [];
      assert PlainMembers(ms, prefix) == PlainMember(ms[0], prefix);
    } else {
      FlatMembersIsPlain(dump, json.members, prefix, depth, maxDepth);
    }
  }

  lemma {:induction false} FlatMembersIsPlain(dump: Json -> string, ms: seq<Member>, prefix: string,
                                              depth: nat, maxDepth: nat)
    requires depth < maxDepth
    ensures FlatMembers(dump, ms, prefix, depth, maxDepth)
         == PlainMembers(TruncateMembers(dump, ms, maxDepth - depth - 1), prefix)
    decreases ms, 0
  {
    if ms != [] {
      var n := |ms| - 1;
      var levels := maxDepth - depth - 1;
      FlatMembersIsPlain(dump, ms[..n], prefix, depth, maxDepth);
      var t := Member(ms[n].key, Truncate(dump, ms[n].value, levels));
      PlainSnoc(TruncateMembers(dump, ms[..n], levels), t, prefix);
      if ms[n].value.Obj? { FlatIsPlain(dump, ms[n].value, Extend(prefix, ms[n].key), depth + 1, maxDepth); }
    }
  }

  lemma PlainSnoc(ms: seq<Member>, m: Member, prefix: string)
    ensures PlainMembers(ms + [m], prefix) == PlainMembers(ms, prefix) + PlainMember(m, prefix)
  {
    assert (ms + [m])[..|ms|] == ms;
  }

  /** A document nested less deeply than the limit is not truncated at all. */
  lemma {:induction false} ShallowIsWhole(dump: Json -> string, json: Json, levels: nat)
    requires Height(json) <= levels
    ensures Truncate(dump, json, levels) == json
    decreases json, 1
  {
    if json.Obj? { ShallowMembersAreWhole(dump, json.members, levels - 1); }
  }

  lemma {:induction false} ShallowMembersAreWhole(dump: Json -> string, ms: seq<Member>, levels: nat)
    requires MaxHeight(ms) <= levels
    ensures TruncateMembers(dump, ms, levels) == ms
    decreases ms, 0
  {
    if ms != [] {
      var n := |ms| - 1;
      ShallowMembersAreWhole(dump, ms[..n], levels);
      ShallowIsWhole(dump, ms[n].value, levels);
      assert ms == ms[..n] + [ms[n]];
    }
  }

  lemma {:induction false} TruncatedMember(dump: Json -> string, ms: seq<Member>, levels: nat, i: nat)
    requires i < |ms|
    ensures TruncateMembers(dump, ms, levels)[i] == Member(ms[i].key, Truncate(dump, ms[i].value, levels))
  {
    if i < |ms| - 1 { TruncatedMember(dump, ms[..|ms| - 1], levels, i); }
  }

  lemma {:induction false} TruncateKeepsUnique(dump: Json -> string, json: Json, levels: nat)
    requires UniqueTree(json)
    ensures UniqueTree(Truncate(dump, json, levels))
    decreases json
  {
    if json.Obj? && levels > 0 {
      var ms := json.members;
      var ts := TruncateMembers(dump, ms, levels - 1);
      forall i | 0 <= i < |ms| ensures ts[i].key == ms[i].key && UniqueTree(ts[i].value) {
        TruncatedMember(dump, ms, levels - 1, i);
        TruncateKeepsUnique(dump, ms[i].value, levels - 1);
      }
    }
  }

  lemma {:induction false} TruncateKeepsGood(dump: Json -> string, json: Json, levels: nat)
    requires GoodTree(json)
    ensures GoodTree(Truncate(dump, json, levels))
    decreases json
  {
    TruncateKeepsUnique(dump, json, levels);
    if json.Obj? && levels > 0 {
      var ms := json.members;
      var ts := TruncateMembers(dump, ms, levels - 1);
      forall i | 0 <= i < |ms| ensures GoodKey(ts[i].key) && GoodTree(ts[i].value) {
        TruncatedMember(dump, ms, levels - 1, i);
        TruncateKeepsGood(dump, ms[i].value, levels - 1);
      }
    }
  }

  // ----- the leaves, in the order of iteration -----

  datatype Found = Found(path: seq<string>, value: Scalar)

  function Leaves(json: Json): seq<Found>
    decreases json, 1
  {
    if json.Leaf? then [Found([], json.value)] else LeavesOf(json.members)
  }

  function LeavesOf(ms: seq<Member>): seq<Found>
    decreases ms, 0
  {
    if ms == [] then [] else
      var n := |ms| - 1;
      LeavesOf(ms[..n]) + Under(ms[n].key, Leaves(ms[n].value))
  }

  function Under(key: string, ls: seq<Found>): seq<Found> {
    seq(|ls|, i requires 0 <= i < |ls| => Found([key] + ls[i].path, ls[i].value))
  }

  // The key under which a path is stored below a prefix.
  function Dotted(prefix: string, path: seq<string>): string
    decreases |path|
  {
    if path == [] then prefix else Dotted(Extend(prefix, path[0]), path[1..])
  }

  function Entries(prefix: string, ls: seq<Found>): seq<Entry> {
    seq(|ls|, i requires 0 <= i < |ls| => Entry(Dotted(prefix, ls[i].path), TextOf(ls[i].value)))
  }

  lemma EntriesUnder(prefix: string, key: string, ls: seq<Found>)
    ensures Entries(prefix, Under(key, ls)) == Entries(Extend(prefix, key), ls)
  {
    forall i | 0 <= i < |ls| ensures Entries(prefix, Under(key, ls))[i] == Entries(Extend(prefix, key), ls)[i] {
      assert ([key] + ls[i].path)[1..] == ls[i].path;
    }
  }

  lemma EntriesConcat(prefix: string, a: seq<Found>, b: seq<Found>)
    ensures Entries(prefix, a + b) == Entries(prefix, a) + Entries(prefix, b)
  {
  }

  /** Flattening stores one entry for each leaf, in the order of iteration. */
  lemma {:induction false} PlainIsLeaves(json: Json, prefix: string)
    requires json.Obj?
    ensures Plain(json, prefix) == Entries(prefix, Leaves(json))
    decreases json, 1
  {
    PlainMembersAreLeaves(json.members, prefix);
  }

  lemma {:induction false} PlainMembersAreLeaves(ms: seq<Member>, prefix: string)
    ensures PlainMembers(ms, prefix) == Entries(prefix, LeavesOf(ms))
    decreases ms, 0
  {
    if ms != [] {
      var n := |ms| - 1;
      var m := ms[n];
      PlainMembersAreLeaves(ms[..n], prefix);
      EntriesUnder(prefix, m.key, Leaves(m.value));
      EntriesConcat(prefix, LeavesOf(ms[..n]), Under(m.key, Leaves(m.value)));
      if m.value.Obj? {
        PlainIsLeaves(m.value, Extend(prefix, m.key));
      } else {
        assert Entries(Extend(prefix, m.key), Leaves(m.value)) == PlainMember(m, prefix);
      }
    }
  }

  // ----- leaves and walks -----

  lemma {:induction false} WalkMember(ms: seq<Member>, path: seq<string>, n: nat, i: nat)
    requires path != [] && i < n <= |ms| && ms[i].key == path[0]
    requires forall i, j :: 0 <= i < j < |ms| ==> ms[i].key != ms[j].key
    ensures WalkMembers(ms, path, n) == Walk(ms[i].value, path[1..])
  {
    if i < n - 1 { WalkMember(ms, path, n - 1, i); }
  }

  lemma {:induction false} WalkFinds(ms: seq<Member>, path: seq<string>, n: nat) returns (i: nat)
    requires path != [] && n <= |ms| && WalkMembers(ms, path, n).Some?
    ensures i < n && ms[i].key == path[0] && Walk(ms[i].value, path[1..]) == WalkMembers(ms, path, n)
  {
    if ms[n - 1].key == path[0] { i := n - 1; } else { i := WalkFinds(ms, path, n - 1); }
  }

  lemma {:induction false} LeafOfMember(ms: seq<Member>, i: nat, k: nat) returns (at: nat)
    requires i < |ms| && k < |Leaves(ms[i].value)|
    ensures at < |LeavesOf(ms)| && LeavesOf(ms)[at] == Under(ms[i].key, Leaves(ms[i].value))[k]
  {
    var n := |ms| - 1;
    if i == n { at := |LeavesOf(ms[..n])| + k; } else { at := LeafOfMember(ms[..n], i, k); }
  }

  lemma {:induction false} MemberOfLeaf(ms: seq<Member>, at: nat) returns (i: nat, k: nat)
    requires at < |LeavesOf(ms)|
    ensures i < |ms| && k < |Leaves(ms[i].value)| && LeavesOf(ms)[at] == Under(ms[i].key, Leaves(ms[i].value))[k]
  {
    var n := |ms| - 1;
    if at < |LeavesOf(ms[..n])| {
      i, k := MemberOfLeaf(ms[..n], at);
    } else {
      i, k := n, at - |LeavesOf(ms[..n])|;
    }
  }

  /** With unique keys, walking the path of a leaf finds that leaf ... */
  lemma {:induction false} LeafIsWalked(json: Json, at: nat)
    requires UniqueTree(json) && at < |Leaves(json)|
    ensures Walk(json, Leaves(json)[at].path) == Some(Leaves(json)[at].value)
    ensures json.Obj? ==> Leaves(json)[at].path != []
    decreases json
  {
    if json.Obj? {
      var ms := json.members;
      var i, k := MemberOfLeaf(ms, at);
      LeafIsWalked(ms[i].value, k);
      var path := Leaves(json)[at].path;
      assert path[1..] == Leaves(ms[i].value)[k].path;
      WalkMember(ms, path, |ms|, i);
    }
  }

  /** ... and a walk that finds something ends at a leaf. */
  lemma {:induction false} WalkedIsLeaf(json: Json, path: seq<string>) returns (at: nat)
    requires Walk(json, path).Some?
    ensures at < |Leaves(json)| && Leaves(json)[at] == Found(path, Walk(json, path).value)
    decreases |path|
  {
    if json.Leaf? {
      at := 0;
    } else {
      var i := WalkFinds(json.members, path, |json.members|);
      var k := WalkedIsLeaf(json.members[i].value, path[1..]);
      at := LeafOfMember(json.members, i, k);
      assert [path[0]] + path[1..] == path;
    }
  }

  lemma {:induction false} WalkedPathIsGood(json: Json, path: seq<string>)
    requires GoodTree(json) && Walk(json, path).Some?
    ensures json.Obj? ==> GoodPath(path)
    decreases |path|
  {
    if json.Obj? {
      var i := WalkFinds(json.members, path, |json.members|);
      WalkedPathIsGood(json.members[i].value, path[1..]);
      assert forall k :: 1 <= k < |path| ==> path[k] == path[1..][k - 1];
    }
  }

  lemma {:induction false} DottedIsJoined(prefix: string, path: seq<string>)
    requires GoodPath(path)
    ensures Dotted(prefix, path) == Extend(prefix, Joined(path))
    decreases |path|
  {
    if |path| > 1 { DottedIsJoined(Extend(prefix, path[0]), path[1..]); }
  }

  // A joined path starts with its first key, and ends there or goes on with a dot.
  lemma JoinedHead(p: seq<string>)
    requires GoodPath(p)
    ensures |Joined(p)| >= |p[0]| && Joined(p)[..|p[0]|] == p[0]
    ensures |p| == 1 <==> Joined(p) == p[0]
    ensures |p| > 1 ==> Joined(p)[|p[0]|] == '.' && Joined(p)[|p[0]| + 1..] == Joined(p[1..])
  {
    if |p| > 1 { assert |Joined(p)| > |p[0]|; }
  }

  lemma HeadIsNotLonger(text: string, a: string, b: string)
    requires |a| <= |text| && text[..|a|] == a && '.' !in a
    requires |b| <= |text| && text[..|b|] == b && (text == b || text[|b|] == '.')
    ensures |a| <= |b|
  {
    assert forall i :: 0 <= i < |a| ==> text[i] == a[i];
  }

  /** Dotted paths determine their keys: no two paths collide. */
  lemma {:induction false} JoinedIsInjective(p: seq<string>, q: seq<string>)
    requires GoodPath(p) && GoodPath(q) && Joined(p) == Joined(q)
    ensures p == q
    decreases |p|
  {
    JoinedHead(p);
    JoinedHead(q);
    HeadIsNotLonger(Joined(p), p[0], q[0]);
    HeadIsNotLonger(Joined(p), q[0], p[0]);
    assert p[0] == q[0];
    if |p| > 1 { JoinedIsInjective(p[1..], q[1..]); }
  }

  // ----- what is stored -----

  // Of the leaves with this dotted path, leaf i is the last one.
  ghost predicate IsLast(ls: seq<Found>, key: string, i: nat) {
    && i < |ls| && Dotted("", ls[i].path) == key
    && forall j :: i < j < |ls| ==> Dotted("", ls[j].path) != key
  }

  lemma {:induction false} LastIsStored(ls: seq<Found>, key: string) returns (last: Option<nat>)
    ensures var m := StoreAll(map[], Entries("", ls));
            match last
            case Some(i) => IsLast(ls, key, i) && key in m && m[key] == TextOf(ls[i].value)
            case None => key !in m && forall i :: 0 <= i < |ls| ==> Dotted("", ls[i].path) != key
  {
    if ls == [] { return None; }
    var n := |ls| - 1;
    assert Entries("", ls)[..n] == Entries("", ls[..n]);
    if Dotted("", ls[n].path) == key { return Some(n); }
    last := LastIsStored(ls[..n], key);
    assert forall i :: 0 <= i < n ==> ls[..n][i] == ls[i];
  }

  function Index(dump: Json -> string, doc: Json): map<string, string>
    requires doc.Obj?
  {
    StoreAll(map[], Flat(dump, doc, "", 0, MAX_DEPTH))
  }

  // The document as far as it is indexed.
  function Indexed(dump: Json -> string, doc: Json): Json {
    Truncate(dump, doc, MAX_DEPTH)
  }

  lemma IndexOfLeaves(dump: Json -> string, doc: Json)
    requires doc.Obj?
    ensures Index(dump, doc) == StoreAll(map[], Entries("", Leaves(Indexed(dump, doc))))
  {
    FlatIsPlain(dump, doc, "", 0, MAX_DEPTH);
    PlainIsLeaves(Indexed(dump, doc), "");
  }

  /** Of any document, whatever its keys, the index holds for each dotted path the text of the last
      leaf in the order of iteration that has it; and nothing else. */
  lemma IndexIsLastLeaf(dump: Json -> string, doc: Json, key: string)
    requires doc.Obj?
    ensures var ls, index := Leaves(Indexed(dump, doc)), Index(dump, doc);
            && (key in index <==> exists i: nat :: IsLast(ls, key, i))
            && (forall i: nat :: IsLast(ls, key, i) ==> key in index && index[key] == TextOf(ls[i].value))
  {
    IndexOfLeaves(dump, doc);
    var ls := Leaves(Indexed(dump, doc));
    var last := LastIsStored(ls, key);
    forall i: nat | IsLast(ls, key, i) ensures last == Some(i) {
      assert Dotted("", ls[i].path) == key;
    }
  }

  ghost predicate IsLeafAt(json: Json, path: seq<string>) {
    Walk(json, path).Some?
  }

  // Looking up the dotted path of a leaf gives the text of that leaf.
  ghost predicate FoundAt(dump: Json -> string, doc: Json, path: seq<string>)
    requires doc.Obj? && IsLeafAt(Indexed(dump, doc), path)
  {
    var key := Dotted("", path);
    key in Index(dump, doc) && Index(dump, doc)[key] == TextOf(Walk(Indexed(dump, doc), path).value)
  }

  lemma LastLeafDecides(dump: Json -> string, doc: Json, path: seq<string>) returns (last: nat)
    requires doc.Obj? && UniqueTree(doc) && IsLeafAt(Indexed(dump, doc), path)
    ensures var tree := Indexed(dump, doc);
            var ls := Leaves(tree);
            && IsLast(ls, Dotted("", path), last) && Walk(tree, ls[last].path) == Some(ls[last].value)
            && (FoundAt(dump, doc, path) <==> TextOf(ls[last].value) == TextOf(Walk(tree, path).value))
  {
    var tree := Indexed(dump, doc);
    var at := WalkedIsLeaf(tree, path);
    IndexOfLeaves(dump, doc);
    var l := LastIsStored(Leaves(tree), Dotted("", path));
    assert Dotted("", Leaves(tree)[at].path) == Dotted("", path);
    last := l.value;
    TruncateKeepsUnique(dump, doc, MAX_DEPTH);
    LeafIsWalked(tree, last);
  }

  /** All leaves of a document are found under their dotted paths if and only if no two leaves with
      one dotted path have different texts. */
  lemma AllLeavesAreFoundExactly(dump: Json -> string, doc: Json)
    requires doc.Obj? && UniqueTree(doc)
    ensures var tree := Indexed(dump, doc);
            (forall p :: IsLeafAt(tree, p) ==> FoundAt(dump, doc, p))
            <==>
            (forall p, q :: IsLeafAt(tree, p) && IsLeafAt(tree, q) && Dotted("", p) == Dotted("", q) ==>
               TextOf(Walk(tree, p).value) == TextOf(Walk(tree, q).value))
  {
    var tree := Indexed(dump, doc);
    if p, q :| IsLeafAt(tree, p) && IsLeafAt(tree, q) && Dotted("", p) == Dotted("", q)
               && TextOf(Walk(tree, p).value) != TextOf(Walk(tree, q).value) {
      assert !(FoundAt(dump, doc, p) && FoundAt(dump, doc, q));
    }
    if p :| IsLeafAt(tree, p) && !FoundAt(dump, doc, p) {
      var last := LastLeafDecides(dump, doc, p);
      assert IsLeafAt(tree, Leaves(tree)[last].path);
    }
  }

  // ----- documents with plain keys -----

  /** Looking up a dotted path in the index is walking the tree, cut off at the depth limit. */
  lemma LookupIsWalk(dump: Json -> string, doc: Json, path: seq<string>)
    requires doc.Obj? && GoodTree(doc) && GoodPath(path)
    ensures var tree := Indexed(dump, doc);
            && (Joined(path) in Index(dump, doc) <==> Walk(tree, path).Some?)
            && (Joined(path) in Index(dump, doc) ==>
                  Index(dump, doc)[Joined(path)] == TextOf(Walk(tree, path).value))
  {
    var tree := Indexed(dump, doc);
    DottedIsJoined("", path);
    if Walk(tree, path).Some? {
      var last := LastLeafDecides(dump, doc, path);
      LeafWithKey(dump, doc, Leaves(tree)[last].path, path);
    }
    if Joined(path) in Index(dump, doc) {
      var p := KeyIsPath(dump, doc, Joined(path));
      LeafWithKey(dump, doc, p, path);
    }
  }

  lemma LeafWithKey(dump: Json -> string, doc: Json, p: seq<string>, path: seq<string>)
    requires doc.Obj? && GoodTree(doc) && GoodPath(path)
    requires IsLeafAt(Indexed(dump, doc), p) && Dotted("", p) == Joined(path)
    ensures p == path
  {
    TruncateKeepsGood(dump, doc, MAX_DEPTH);
    WalkedPathIsGood(Indexed(dump, doc), p);
    DottedIsJoined("", p);
    JoinedIsInjective(p, path);
  }

  lemma KeyIsPath(dump: Json -> string, doc: Json, key: string) returns (path: seq<string>)
    requires doc.Obj? && UniqueTree(doc) && key in Index(dump, doc)
    ensures var tree := Indexed(dump, doc);
            && IsLeafAt(tree, path) && Dotted("", path) == key
            && TextOf(Walk(tree, path).value) == Index(dump, doc)[key]
  {
    var tree := Indexed(dump, doc);
    IndexOfLeaves(dump, doc);
    var last := LastIsStored(Leaves(tree), key);
    path := Leaves(tree)[last.value].path;
    TruncateKeepsUnique(dump, doc, MAX_DEPTH);
    LeafIsWalked(tree, last.value);
  }

  /** Every key of the index is the dotted path of a leaf. */
  lemma EveryKeyIsAPath(dump: Json -> string, doc: Json, key: string)
    requires doc.Obj? && GoodTree(doc) && key in Index(dump, doc)
    ensures exists path :: GoodPath(path) && Joined(path) == key
              && Walk(Indexed(dump, doc), path).Some?
              && TextOf(Walk(Indexed(dump, doc), path).value) == Index(dump, doc)[key]
  {
    var path := KeyIsPath(dump, doc, key);
    TruncateKeepsGood(dump, doc, MAX_DEPTH);
    WalkedPathIsGood(Indexed(dump, doc), path);
    DottedIsJoined("", path);
  }

  /** For documents nested less deeply than the limit the tree is the document itself. */
  lemma ShallowLookupIsWalk(dump: Json -> string, doc: Json, path: seq<string>)
    requires doc.Obj? && GoodTree(doc) && GoodPath(path) && Height(doc) <= MAX_DEPTH
    ensures (if Joined(path) in Index(dump, doc) then Some(Index(dump, doc)[Joined(path)]) else None)
         == match Walk(doc, path) { case Some(value) => Some(TextOf(value)) case None => None }
  {
    ShallowIsWhole(dump, doc, MAX_DEPTH);
    LookupIsWalk(dump, doc, path);
  }
}
