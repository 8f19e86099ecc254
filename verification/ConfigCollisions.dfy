/** Which leaf the configuration index of src/config_manager.cpp holds when several have one dotted
    path. That depends on the order in which the JSON library iterates an object: by key. */
module ConfigCollisions {
  import opened Options
  import opened ConfigIndex

  // std::string's order, by bytes.
  predicate KeyLess(a: string, b: string) {
    b != "" && (a == "" || a[0] < b[0] || (a[0] == b[0] && KeyLess(a[1..], b[1..])))
  }

  // Every object has its members sorted by key, as the library keeps them.
  ghost predicate SortedTree(json: Json)
    decreases json, 1
  {
    json.Obj? ==> SortedMembers(json.members)
  }

  ghost predicate SortedMembers(ms: seq<Member>)
    decreases ms, 0
  {
    && (forall i, j :: 0 <= i < j < |ms| ==> KeyLess(ms[i].key, ms[j].key))
    && (forall i :: 0 <= i < |ms| ==> SortedTree(ms[i].value))
  }

  lemma {:induction false} LessIsNotEqual(a: string)
    ensures !KeyLess(a, a)
  {
    if a != "" { LessIsNotEqual(a[1..]); }
  }

  lemma {:induction false} SortedIsUnique(json: Json)
    requires SortedTree(json)
    ensures UniqueTree(json)
    decreases json
  {
    if json.Obj? {
      var ms := json.members;
      forall i, j | 0 <= i < j < |ms| ensures ms[i].key != ms[j].key {
        if ms[i].key == ms[j].key { LessIsNotEqual(ms[i].key); }
      }
      forall i | 0 <= i < |ms| ensures UniqueTree(ms[i].value) { SortedIsUnique(ms[i].value); }
    }
  }

  lemma {:induction false} TruncateKeepsSorted(dump: Json -> string, json: Json, levels: nat)
    requires SortedTree(json)
    ensures SortedTree(Truncate(dump, json, levels))
    decreases json
  {
    if json.Obj? && levels > 0 {
      var ms := json.members;
      var ts := TruncateMembers(dump, ms, levels - 1);
      forall i | 0 <= i < |ms| ensures ts[i].key == ms[i].key && SortedTree(ts[i].value) {
        TruncatedMember(dump, ms, levels - 1, i);
        TruncateKeepsSorted(dump, ms[i].value, levels - 1);
      }
    }
  }

  // ----- which leaf wins -----

  // p comes before q.
  predicate PathLess(p: seq<string>, q: seq<string>) {
    p != [] && q != [] && (KeyLess(p[0], q[0]) || (p[0] == q[0] && PathLess(p[1..], q[1..])))
  }

  // Where the two paths first differ, p has the longer key.
  predicate Beats(p: seq<string>, q: seq<string>) {
    p != [] && q != [] && (|p[0]| > |q[0]| || (p[0] == q[0] && Beats(p[1..], q[1..])))
  }

  lemma {:induction false} BeatsIsOneWay(p: seq<string>, q: seq<string>)
    requires Beats(p, q)
    ensures !Beats(q, p)
  {
    if p[0] == q[0] { BeatsIsOneWay(p[1..], q[1..]); }
  }

  lemma PathLessUnder(key: string, p: seq<string>, q: seq<string>)
    requires PathLess(p, q)
    ensures PathLess([key] + p, [key] + q)
  {
    assert ([key] + p)[1..] == p && ([key] + q)[1..] == q;
  }

  /** In a sorted tree the leaves are iterated in the order of their paths. */
  lemma {:induction false} LeavesAreSorted(json: Json, i: nat, j: nat)
    requires SortedTree(json) && i < j < |Leaves(json)|
    ensures PathLess(Leaves(json)[i].path, Leaves(json)[j].path)
    decreases json, 1
  {
    MemberLeavesAreSorted(json.members, i, j);
  }

  lemma {:induction false} MemberLeavesAreSorted(ms: seq<Member>, i: nat, j: nat)
    requires SortedMembers(ms) && i < j < |LeavesOf(ms)|
    ensures PathLess(LeavesOf(ms)[i].path, LeavesOf(ms)[j].path)
    decreases ms, 0
  {
    var n := |ms| - 1;
    var before, inner, key := LeavesOf(ms[..n]), Leaves(ms[n].value), ms[n].key;
    if j < |before| {
      MemberLeavesAreSorted(ms[..n], i, j);
    } else if i >= |before| {
      LeavesAreSorted(ms[n].value, i - |before|, j - |before|);
      PathLessUnder(key, inner[i - |before|].path, inner[j - |before|].path);
    } else {
      var m, k := MemberOfLeaf(ms[..n], i);
      assert LeavesOf(ms)[i] == before[i] && LeavesOf(ms)[j].path[0] == key;
      assert KeyLess(ms[m].key, key);
    }
  }

  lemma {:induction false} DottedExtends(prefix: string, path: seq<string>)
    ensures |prefix| <= |Dotted(prefix, path)| && Dotted(prefix, path)[..|prefix|] == prefix
    decreases |path|
  {
    if path != [] {
      var next := Extend(prefix, path[0]);
      DottedExtends(next, path[1..]);
      assert next[..|prefix|] == prefix;
    }
  }

  // Of two beginnings of one text, the longer one is the greater.
  lemma {:induction false} GreaterIsLonger(a: string, b: string, text: string)
    requires KeyLess(a, b) && |a| <= |text| && text[..|a|] == a && |b| <= |text| && text[..|b|] == b
    ensures |a| < |b|
  {
    if a != "" {
      assert a[0] == text[0] == b[0];
      assert text[1..][..|a| - 1] == a[1..] && text[1..][..|b| - 1] == b[1..];
      GreaterIsLonger(a[1..], b[1..], text[1..]);
    }
  }

  // What follows the prefix and its dot.
  lemma KeyBegins(prefix: string, path: seq<string>)
    requires path != []
    ensures var start := |Extend(prefix, "")|;
            var text := Dotted(prefix, path);
            start <= |text| && |path[0]| <= |text| - start && text[start..][..|path[0]|] == path[0]
  {
    var next := Extend(prefix, path[0]);
    DottedExtends(next, path[1..]);
    var start, text := |Extend(prefix, "")|, Dotted(prefix, path);
    assert next[start..] == path[0];
    assert text[start..][..|path[0]|] == text[..|next|][start..];
  }

  /** Of two leaves with one dotted path, the one whose key is longer where the paths first differ
      comes later. */
  lemma {:induction false} LaterBeats(prefix: string, p: seq<string>, q: seq<string>)
    requires PathLess(p, q) && Dotted(prefix, p) == Dotted(prefix, q)
    ensures Beats(q, p)
    decreases |p|
  {
    if KeyLess(p[0], q[0]) {
      KeyBegins(prefix, p);
      KeyBegins(prefix, q);
      GreaterIsLonger(p[0], q[0], Dotted(prefix, p)[|Extend(prefix, "")|..]);
    } else {
      LaterBeats(Extend(prefix, p[0]), p[1..], q[1..]);
    }
  }

  // The leaf at w has the longer key, against every other leaf with its dotted path, where their
  // paths first differ.
  ghost predicate Wins(tree: Json, key: string, w: seq<string>) {
    && IsLeafAt(tree, w) && Dotted("", w) == key
    && forall q :: IsLeafAt(tree, q) && Dotted("", q) == key && q != w ==> Beats(w, q)
  }

  lemma LastWins(tree: Json, key: string, last: nat)
    requires SortedTree(tree) && IsLast(Leaves(tree), key, last)
    ensures Wins(tree, key, Leaves(tree)[last].path)
  {
    var ls := Leaves(tree);
    SortedIsUnique(tree);
    LeafIsWalked(tree, last);
    forall q | IsLeafAt(tree, q) && Dotted("", q) == key && q != ls[last].path ensures Beats(ls[last].path, q) {
      var at := WalkedIsLeaf(tree, q);
      LeavesAreSorted(tree, at, last);
      LaterBeats("", q, ls[last].path);
    }
  }

  lemma OneWinner(tree: Json, key: string, v: seq<string>, w: seq<string>)
    requires Wins(tree, key, v) && Wins(tree, key, w)
    ensures v == w
  {
    if v != w { BeatsIsOneWay(v, w); }
  }

  /** The index holds for each dotted path the text of the one leaf that wins it. */
  lemma WinnerIsStored(dump: Json -> string, doc: Json, key: string, w: seq<string>)
    requires doc.Obj? && SortedTree(doc) && Wins(Indexed(dump, doc), key, w)
    ensures key in Index(dump, doc) && Index(dump, doc)[key] == TextOf(Walk(Indexed(dump, doc), w).value)
  {
    var tree := Indexed(dump, doc);
    SortedIsUnique(doc);
    TruncateKeepsSorted(dump, doc, MAX_DEPTH);
    IndexOfLeaves(dump, doc);
    var last := LastLeafDecides(dump, doc, w);
    LastWins(tree, key, last);
    OneWinner(tree, key, w, Leaves(tree)[last].path);
  }

  /** A leaf is found with its own text if and only if the leaf that wins its dotted path has that
      text. There is always one: where its path first differs from that of another leaf, its key is
      the longer one. */
  lemma LeafIsFoundExactly(dump: Json -> string, doc: Json, path: seq<string>) returns (w: seq<string>)
    requires doc.Obj? && SortedTree(doc) && IsLeafAt(Indexed(dump, doc), path)
    ensures var tree := Indexed(dump, doc);
            && Wins(tree, Dotted("", path), w)
            && (FoundAt(dump, doc, path) <==> TextOf(Walk(tree, w).value) == TextOf(Walk(tree, path).value))
  {
    SortedIsUnique(doc);
    TruncateKeepsSorted(dump, doc, MAX_DEPTH);
    var last := LastLeafDecides(dump, doc, path);
    LastWins(Indexed(dump, doc), Dotted("", path), last);
    w := Leaves(Indexed(dump, doc))[last].path;
  }

  // ----- keys that collide -----

  function Colliding(a: string, b: string, x: Scalar, y: Scalar): Json {
    Obj([Member(a, Obj([Member(b, Leaf(x))])), Member(Extend(a, b), Leaf(y))])
  }

  lemma OneLeaf(key: string, x: Scalar)
    ensures Under(key, Leaves(Leaf(x))) == [Found([key], x)]
  {
    assert [key] + [] == [key];
  }

  lemma OneMember(m: Member)
    ensures LeavesOf([m]) == Under(m.key, Leaves(m.value))
    ensures MaxHeight([m]) == Height(m.value)
  {
    assert [m][..0] == [];
  }

  lemma TwoMembers(m0: Member, m1: Member)
    ensures LeavesOf([m0, m1]) == Under(m0.key, Leaves(m0.value)) + Under(m1.key, Leaves(m1.value))
    ensures Height(Obj([m0, m1])) <= 1 + Height(m0.value) + Height(m1.value)
  {
    assert [m0, m1][..1] == [m0];
    OneMember(m0);
  }

  lemma CollidingLeaves(a: string, b: string, x: Scalar, y: Scalar)
    ensures Leaves(Colliding(a, b, x, y)) == [Found([a, b], x), Found([Extend(a, b)], y)]
    ensures Height(Colliding(a, b, x, y)) <= 2
  {
    var inner := Obj([Member(b, Leaf(x))]);
    OneMember(Member(b, Leaf(x)));
    OneLeaf(b, x);
    OneLeaf(Extend(a, b), y);
    TwoMembers(Member(a, inner), Member(Extend(a, b), Leaf(y)));
    assert [a] + [b] == [a, b];
    assert Under(a, [Found([b], x)]) == [Found([a, b], x)];
  }

  lemma DottedKey(prefix: string, key: string)
    ensures Dotted(prefix, [key]) == Extend(prefix, key)
  {
    assert [key][1..] == [];
    assert Dotted(Extend(prefix, key), []) == Extend(prefix, key);
  }

  lemma CollidingKeys(a: string, b: string)
    ensures Dotted("", [a, b]) == Extend(a, b) == Dotted("", [Extend(a, b)])
  {
    var p := [a, b];
    assert p[1..] == [b];
    assert Dotted("", p) == Dotted(a, [b]);
    DottedKey(a, b);
    DottedKey("", Extend(a, b));
  }

  lemma StoreTwo(key: string, v: string, w: string)
    ensures StoreAll(map[], [Entry(key, v), Entry(key, w)]) == map[key := w]
  {
    var one, two := [Entry(key, v)], [Entry(key, v), Entry(key, w)];
    assert one[..0] == [] && two[..1] == one;
    assert StoreAll(map[], one) == map[key := v];
  }

  lemma CollidingIsUnique(a: string, b: string, x: Scalar, y: Scalar)
    requires a != "" || b != ""
    ensures UniqueTree(Colliding(a, b, x, y))
  {
    assert UniqueTree(Obj([Member(b, Leaf(x))]));
    assert a != Extend(a, b) by { if a != "" { assert |Extend(a, b)| > |a|; } }
  }

  /** Keys with dots collide: {"a": {"b": x}, "a.b": y} stores one entry for two leaves, and the
      later one wins. So do empty keys: {"": {"b": x}, "b": y}. */
  lemma DotsCollide(dump: Json -> string, a: string, b: string, x: Scalar, y: Scalar)
    requires a != "" || b != ""
    ensures var doc := Colliding(a, b, x, y);
            Index(dump, doc) == map[Extend(a, b) := TextOf(y)] && Walk(doc, [a, b]) == Some(x)
  {
    var doc, k := Colliding(a, b, x, y), Extend(a, b);
    CollidingLeaves(a, b, x, y);
    CollidingKeys(a, b);
    ShallowIsWhole(dump, doc, MAX_DEPTH);
    IndexOfLeaves(dump, doc);
    assert Entries("", Leaves(doc)) == [Entry(k, TextOf(x)), Entry(k, TextOf(y))];
    StoreTwo(k, TextOf(x), TextOf(y));
    CollidingIsUnique(a, b, x, y);
    LeafIsWalked(doc, 0);
  }
}
