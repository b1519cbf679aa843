/** What a selection holds: at each path the value of the last place written there. Different places can share a path.
    They do not when keys cannot be confused with path syntax. */
module EvidenceTheorems {
  import opened Texts
  import opened Decimals
  import opened JsonNumbers
  import opened JsonText
  import opened EvidenceSelection

  // ---- What the last writer leaves ----

  /** No later place writes to the same path. */
  ghost predicate IsLast(places: seq<Selection>, j: nat) {
    j < |places| && forall k :: j < k < |places| ==> places[k].path != places[j].path
  }

  /** The last place with the path of x holds the value of x. */
  ghost predicate IsKept(places: seq<Selection>, x: Selection) {
    exists j: nat :: IsLast(places, j) && places[j].path == x.path && places[j].value == x.value
  }

  /** No two places write different values to one path. */
  ghost predicate IsUnambiguous(places: seq<Selection>) {
    forall x, y :: x in places && y in places && x.path == y.path ==> x.value == y.value
  }

  lemma IsLastSnoc(places: seq<Selection>, x: Selection, j: nat)
    ensures IsLast(places + [x], j) <==> j == |places| || (IsLast(places, j) && places[j].path != x.path)
  {
    var all := places + [x];
    if j < |places| {
      assert all[j] == places[j] && all[|places|] == x;
      assert forall k :: j < k < |places| ==> all[k] == places[k];
    }
  }

  lemma {:induction false} LastWins(places: seq<Selection>)
    ensures var m := Written(map[], places);
      && (forall x :: x in places ==> x.path in m)
      && (forall t: Text :: t in m ==> exists j: nat :: IsLast(places, j) && places[j].path == t)
      && (forall j: nat :: IsLast(places, j) ==> places[j].path in m && m[places[j].path] == places[j].value)
  {
    hide IsLast;
    if places != [] {
      var n := |places| - 1;
      var front, x := places[..n], places[n];
      assert places == front + [x];
      LastWins(front);
      WrittenConcat(map[], front, [x]);
      WrittenOne(Written(map[], front), x);
      LastAmong(front);
      LastAmong(places);
      forall j: nat
        ensures IsLast(places, j) <==> j == n || (IsLast(front, j) && front[j].path != x.path)
      {
        IsLastSnoc(front, x, j);
      }
      var m := Written(map[], places);
      forall t | t in m ensures exists j: nat :: IsLast(places, j) && places[j].path == t {
        if t == x.path {
          assert IsLast(places, n);
        } else {
          var j: nat :| IsLast(front, j) && front[j].path == t;
          assert places[j] == front[j] && IsLast(places, j);
        }
      }
    } else {
      assert forall j: nat :: !IsLast(places, j) by { LastAmong(places); }
    }
  }

  lemma LastAmong(places: seq<Selection>)
    ensures forall j: nat :: IsLast(places, j) ==> j < |places|
  {
  }

  /** Any payload: the returned map has the paths of the places, each with the value of the last place there. A place
      can be read in it exactly when it is kept. */
  lemma SelectionIsExact(q: Query, payload: Json)
    ensures var places, m := Places(q, payload), Written(map[], Places(q, payload));
      && m.Keys == (set x | x in SearchPayload(q, payload).selected :: x.path)
      && (forall j: nat :: IsLast(places, j) ==> places[j].path in m && m[places[j].path] == places[j].value)
      && (forall x :: x in SearchPayload(q, payload).selected ==>
        x.path in m && (m[x.path] == x.value <==> IsKept(places, x)))
  {
    hide Places, IsLast, SearchPayload;
    PlacesAreFound(q, payload);
    var places, m := Places(q, payload), Written(map[], Places(q, payload));
    LastWins(places);
    LastAmong(places);
    AmongIs(places);
    forall t | t in m ensures t in set x | x in SearchPayload(q, payload).selected :: x.path {
      var j: nat :| IsLast(places, j) && places[j].path == t;
      assert places[j] in places;
    }
    forall x | x in places ensures x.path in m && (m[x.path] == x.value <==> IsKept(places, x)) {
      var j: nat :| IsLast(places, j) && places[j].path == x.path;
    }
  }

  lemma AmongIs(places: seq<Selection>)
    ensures forall x :: x in Among(places) <==> x in places
  {
  }

  /** When no two places write different values to one path, every place is kept. */
  lemma UnambiguousKeepsAll(q: Query, payload: Json, x: Selection)
    requires IsUnambiguous(Places(q, payload)) && x in Places(q, payload)
    ensures IsKept(Places(q, payload), x)
  {
    hide Places, Written, IsLast;
    var places := Places(q, payload);
    LastWins(places);
    LastAmong(places);
    var j: nat :| IsLast(places, j) && places[j].path == x.path;
    assert places[j] in places;
  }

  // ---- Paths are unambiguous ----

  predicate IsSeparator(u: CodeUnit) { u == DOT || u == OPEN_BRACKET }

  predicate IsPlain(key: Text) { forall i :: 0 <= i < |key| ==> !IsSeparator(key[i]) }

  /** No key of any object contains a separator of the path notation, and none is repeated. */
  predicate HasPlainKeys(v: Json) {
    match v
    case Arr(items) => forall i :: 0 <= i < |items| ==> HasPlainKeys(items[i])
    case Obj(ms) => DistinctKeys(ms) && forall i :: 0 <= i < |ms| ==> IsPlain(ms[i].key) && HasPlainKeys(ms[i].value)
    case _ => true
  }

  /** t is the path p or continues it with another step. */
  predicate Under(t: Text, p: Text) {
    |p| <= |t| && t[..|p|] == p && (|t| > |p| ==> IsSeparator(t[|p|]))
  }

  ghost predicate Apart(p: Text, r: Text) { forall t :: !(Under(t, p) && Under(t, r)) }

  ghost predicate PairwiseApart(nodes: seq<Node>) {
    forall i, j :: 0 <= i < j < |nodes| ==> Apart(nodes[i].path, nodes[j].path)
  }

  ghost predicate AllPlain(nodes: seq<Node>) {
    forall i :: 0 <= i < |nodes| ==> HasPlainKeys(nodes[i].value)
  }

  ghost predicate UniquePaths(selected: set<Selection>) {
    forall x, y :: x in selected && y in selected && x.path == y.path ==> x == y
  }

  lemma UnderTransitive(t: Text, p: Text, r: Text)
    requires Under(t, p) && Under(p, r)
    ensures Under(t, r)
  {
    assert t[..|r|] == t[..|p|][..|r|];
    if |p| > |r| { assert t[|r|] == t[..|p|][|r|]; }
  }

  /** What stands before the first separator. */
  function HeadKey(t: Text): Text {
    if t == [] || IsSeparator(t[0]) then [] else [t[0]] + HeadKey(t[1..])
  }

  lemma {:induction false} HeadKeyOf(key: Text, rest: Text)
    requires IsPlain(key) && (rest != [] ==> IsSeparator(rest[0]))
    ensures HeadKey(key + rest) == key
  {
    if key == [] {
      assert key + rest == rest;
    } else {
      assert (key + rest)[1..] == key[1..] + rest;
      HeadKeyOf(key[1..], rest);
    }
  }

  lemma KeyAfterPath(t: Text, path: Text, key: Text)
    requires IsPlain(key) && Under(t, KeyPath(path, key))
    ensures |t| > |path| && HeadKey(t[|path| + 1..]) == key
  {
    var p := KeyPath(path, key);
    var rest := t[|p|..];
    assert t == p + rest;
    assert t[|path| + 1..] == key + rest;
    HeadKeyOf(key, rest);
  }

  lemma KeysApart(path: Text, a: Text, b: Text)
    requires IsPlain(a) && IsPlain(b) && a != b
    ensures Apart(KeyPath(path, a), KeyPath(path, b))
  {
    hide IsPlain, KeyPath, Under;
    forall t ensures !(Under(t, KeyPath(path, a)) && Under(t, KeyPath(path, b))) {
      if Under(t, KeyPath(path, a)) { KeyAfterPath(t, path, a); }
      if Under(t, KeyPath(path, b)) { KeyAfterPath(t, path, b); }
    }
  }

  lemma IndexAfterPath(t: Text, path: Text, i: nat)
    requires Under(t, IndexPath(path, i))
    ensures |t| > |path|
    ensures var tail := t[|path| + 1..]; tail[..DigitSpan(tail)] == Decimal(i)
  {
    var p, d := IndexPath(path, i), Decimal(i);
    var rest := [CLOSE_BRACKET] + t[|p|..];
    assert t == p + t[|p|..];
    assert t[|path| + 1..] == d + rest;
    DigitSpanAppend(d, rest);
  }

  lemma IndicesApart(path: Text, i: nat, j: nat)
    requires i != j
    ensures Apart(IndexPath(path, i), IndexPath(path, j))
  {
    hide IndexPath, Under;
    forall t ensures !(Under(t, IndexPath(path, i)) && Under(t, IndexPath(path, j))) {
      if Under(t, IndexPath(path, i)) { IndexAfterPath(t, path, i); }
      if Under(t, IndexPath(path, j)) { IndexAfterPath(t, path, j); }
      if Decimal(i) == Decimal(j) { DecimalInjective(i, j); }
    }
  }

  lemma StepsDown(path: Text, key: Text, i: nat)
    ensures Under(KeyPath(path, key), path) && |KeyPath(path, key)| > |path|
    ensures Under(IndexPath(path, i), path) && |IndexPath(path, i)| > |path|
  {
    assert KeyPath(path, key)[..|path|] == path && IndexPath(path, i)[..|path|] == path;
  }

  // ---- The children of a node ----

  ghost predicate IsItemNode(items: seq<Json>, from: nat, path: Text, c: Node) {
    exists i: nat :: from <= i < |items| && c.value == items[i] && c.path == IndexPath(path, i)
  }

  ghost predicate IsMemberNode(q: Query, ms: seq<Member>, path: Text, field: Text, c: Node) {
    exists i :: 0 <= i < |ms| && c.value == ms[i].value && c.path == KeyPath(path, ms[i].key)
      && !IsMapped(q, field, ms[i].key)
  }

  lemma {:induction false} ItemNodesAre(items: seq<Json>, from: nat, path: Text, field: Text)
    ensures forall k :: 0 <= k < |ItemNodes(items, from, path, field)| ==>
      IsItemNode(items, from, path, ItemNodes(items, from, path, field)[k])
    ensures PairwiseApart(ItemNodes(items, from, path, field))
    decreases |items| - from
  {
    hide IndexPath, Under;
    if from < |items| {
      var rest := ItemNodes(items, from + 1, path, field);
      ItemNodesAre(items, from + 1, path, field);
      forall k | 0 <= k < |rest|
        ensures IsItemNode(items, from, path, rest[k]) && Apart(IndexPath(path, from), rest[k].path)
      {
        assert IsItemNode(items, from + 1, path, rest[k]);
        var i: nat :| from + 1 <= i < |items| && rest[k].value == items[i] && rest[k].path == IndexPath(path, i);
        IndicesApart(path, from, i);
      }
      assert IsContainer(items[from]) ==>
        IsItemNode(items, from, path, Node(items[from], IndexPath(path, from), field));
    }
  }

  lemma {:induction false} MemberNodesAre(q: Query, ms: seq<Member>, path: Text, field: Text)
    requires DistinctKeys(ms) && forall i :: 0 <= i < |ms| ==> IsPlain(ms[i].key)
    ensures forall k :: 0 <= k < |MemberNodes(q, ms, path, field)| ==>
      IsMemberNode(q, ms, path, field, MemberNodes(q, ms, path, field)[k])
    ensures PairwiseApart(MemberNodes(q, ms, path, field))
  {
    hide KeyPath, Under, IsPlain, IsMapped;
    if ms != [] {
      var rest, here := MemberNodes(q, ms[1..], path, field), MemberNodes(q, ms, path, field);
      MemberNodesAre(q, ms[1..], path, field);
      forall k | 0 <= k < |rest|
        ensures IsMemberNode(q, ms, path, field, rest[k]) && Apart(KeyPath(path, ms[0].key), rest[k].path)
      {
        assert IsMemberNode(q, ms[1..], path, field, rest[k]);
        var i :| 0 <= i < |ms| - 1 && rest[k].value == ms[1..][i].value && rest[k].path == KeyPath(path, ms[1..][i].key)
          && !IsMapped(q, field, ms[1..][i].key);
        assert ms[1..][i] == ms[i + 1];
        KeysApart(path, ms[0].key, ms[i + 1].key);
      }
      forall k | 0 <= k < |here| ensures IsMemberNode(q, ms, path, field, here[k]) {
        if |here| > |rest| {
          assert here[1..] == rest;
          if k > 0 { assert here[k] == rest[k - 1]; } else { assert here[0].value == ms[0].value; }
        }
      }
    }
  }

  lemma {:induction false} MappedEntriesAre(q: Query, ms: seq<Member>, path: Text, field: Text, x: Selection)
    requires x in MappedEntries(q, ms, path, field)
    ensures exists i :: 0 <= i < |ms| && IsMapped(q, field, ms[i].key) && x == Entry(path, ms[i])
  {
    hide KeyPath, IsMapped;
    if x in MappedEntries(q, ms[1..], path, field) {
      MappedEntriesAre(q, ms[1..], path, field, x);
      var i :| 0 <= i < |ms| - 1 && IsMapped(q, field, ms[1..][i].key) && x == Entry(path, ms[1..][i]);
      assert ms[1..][i] == ms[i + 1];
    } else {
      assert IsMapped(q, field, ms[0].key);
    }
  }

  lemma ChildrenFit(q: Query, node: Node)
    requires HasPlainKeys(node.value)
    ensures AllPlain(VisitNode(q, node).children) && PairwiseApart(VisitNode(q, node).children)
    ensures forall k :: 0 <= k < |VisitNode(q, node).children| ==>
      Under(VisitNode(q, node).children[k].path, node.path) && |VisitNode(q, node).children[k].path| > |node.path|
  {
    hide Under, KeyPath, IndexPath, IsMapped, IsPlain, Rows, RowIds, Scalars, ScalarIds, MemberMatches, MappedEntries;
    var children := VisitNode(q, node).children;
    match node.value
    case Arr(items) =>
      ItemNodesAre(items, 0, node.path, node.field);
      forall k | 0 <= k < |children|
        ensures HasPlainKeys(children[k].value) && Under(children[k].path, node.path)
          && |children[k].path| > |node.path|
      {
        assert IsItemNode(items, 0, node.path, children[k]);
        var i: nat :| 0 <= i < |items| && children[k].value == items[i] && children[k].path == IndexPath(node.path, i);
        StepsDown(node.path, [], i);
      }
    case Obj(ms) =>
      MemberNodesAre(q, ms, node.path, node.field);
      forall k | 0 <= k < |children|
        ensures HasPlainKeys(children[k].value) && Under(children[k].path, node.path)
          && |children[k].path| > |node.path|
      {
        assert IsMemberNode(q, ms, node.path, node.field, children[k]);
        var i :| 0 <= i < |ms| && children[k].value == ms[i].value && children[k].path == KeyPath(node.path, ms[i].key)
          && !IsMapped(q, node.field, ms[i].key);
        StepsDown(node.path, ms[i].key, 0);
      }
    case _ =>
  }

  lemma OwnUnder(q: Query, node: Node, x: Selection)
    requires x in VisitNode(q, node).selected
    ensures Under(x.path, node.path)
  {
    hide KeyPath, IsMapped, Rows, RowIds, Scalars, ScalarIds, MemberMatches, MappedEntries, ItemNodes, MemberNodes;
    if node.value.Obj? && MemberMatches(q, node.value.members) == {} {
      MappedEntriesAre(q, node.value.members, node.path, node.field, x);
      StepsDown(node.path, x.path, 0);
      var i :| 0 <= i < |node.value.members| && x.path == KeyPath(node.path, node.value.members[i].key);
      StepsDown(node.path, node.value.members[i].key, 0);
    } else {
      assert x.path == node.path && x.path[..|x.path|] == x.path;
    }
  }

  /** Everything a search selects lies under one of its nodes. */
  lemma {:induction false} SearchUnder(q: Query, nodes: seq<Node>, x: Selection)
    requires AllPlain(nodes) && x in Search(q, nodes).selected
    ensures exists i :: 0 <= i < |nodes| && Under(x.path, nodes[i].path)
    decreases Weight(nodes)
  {
    hide Under, VisitNode, HasPlainKeys;
    var visit := VisitNode(q, nodes[0]);
    ChildrenWeight(q, nodes[0]);
    ChildrenFit(q, nodes[0]);
    if x in visit.selected {
      OwnUnder(q, nodes[0], x);
    } else if x in Search(q, visit.children).selected {
      SearchUnder(q, visit.children, x);
      var k :| 0 <= k < |visit.children| && Under(x.path, visit.children[k].path);
      UnderTransitive(x.path, visit.children[k].path, nodes[0].path);
    } else {
      SearchUnder(q, nodes[1..], x);
      var i :| 0 <= i < |nodes| - 1 && Under(x.path, nodes[1..][i].path);
      assert nodes[1..][i] == nodes[i + 1];
    }
  }

  /** A node's own selections have paths of their own. */
  lemma OwnUnique(q: Query, node: Node)
    requires HasPlainKeys(node.value)
    ensures UniquePaths(Among(VisitNode(q, node).selected))
  {
    hide KeyPath, IsMapped, Rows, RowIds, Scalars, ScalarIds, MemberMatches, MappedEntries, ItemNodes, MemberNodes;
    hide IsPlain;
    if node.value.Obj? && MemberMatches(q, node.value.members) == {} {
      var ms, own := node.value.members, VisitNode(q, node).selected;
      forall x, y | x in own && y in own && x.path == y.path ensures x == y {
        MappedEntriesAre(q, ms, node.path, node.field, x);
        MappedEntriesAre(q, ms, node.path, node.field, y);
        var i :| 0 <= i < |ms| && IsMapped(q, node.field, ms[i].key) && x == Entry(node.path, ms[i]);
        var j :| 0 <= j < |ms| && IsMapped(q, node.field, ms[j].key) && y == Entry(node.path, ms[j]);
        if i != j {
          assert ms[i].key != ms[j].key;
          KeysApart(node.path, ms[i].key, ms[j].key);
          SelfUnder(x.path);
        }
      }
    }
  }

  lemma SelfUnder(p: Text)
    ensures Under(p, p)
  {
  }

  /** No child selects at a path of the node itself. */
  lemma OwnApart(q: Query, node: Node, x: Selection, y: Selection)
    requires HasPlainKeys(node.value)
    requires x in VisitNode(q, node).selected && y in Search(q, VisitNode(q, node).children).selected
    ensures x.path != y.path
  {
    hide KeyPath, IsMapped, Rows, RowIds, Scalars, ScalarIds, MemberMatches, MappedEntries, ItemNodes, MemberNodes;
    hide IsPlain, Search, Under;
    var children := VisitNode(q, node).children;
    ChildrenFit(q, node);
    SearchUnder(q, children, y);
    var k :| 0 <= k < |children| && Under(y.path, children[k].path);
    assert |y.path| >= |children[k].path| > |node.path| by { LongerUnder(y.path, children[k].path); }
    if node.value.Obj? && MemberMatches(q, node.value.members) == {} {
      var ms := node.value.members;
      MappedEntriesAre(q, ms, node.path, node.field, x);
      MemberNodesAre(q, ms, node.path, node.field);
      var i :| 0 <= i < |ms| && IsMapped(q, node.field, ms[i].key) && x == Entry(node.path, ms[i]);
      assert IsMemberNode(q, ms, node.path, node.field, children[k]);
      var j :| 0 <= j < |ms| && children[k].path == KeyPath(node.path, ms[j].key)
        && !IsMapped(q, node.field, ms[j].key);
      KeysApart(node.path, ms[i].key, ms[j].key);
      SelfUnder(x.path);
    }
  }

  lemma LongerUnder(t: Text, p: Text)
    requires Under(t, p)
    ensures |t| >= |p|
  {
  }

  /** With plain keys a search never selects two different values at one path. */
  lemma {:induction false} SearchUnique(q: Query, nodes: seq<Node>)
    requires AllPlain(nodes) && PairwiseApart(nodes)
    ensures UniquePaths(Search(q, nodes).selected)
    decreases Weight(nodes)
  {
    hide Under, VisitNode, HasPlainKeys;
    if nodes != [] {
      var visit := VisitNode(q, nodes[0]);
      var own, below, beside := Among(visit.selected), Search(q, visit.children).selected,
        Search(q, nodes[1..]).selected;
      ChildrenWeight(q, nodes[0]);
      ChildrenFit(q, nodes[0]);
      OwnUnique(q, nodes[0]);
      SearchUnique(q, visit.children);
      SearchUnique(q, nodes[1..]);
      forall x, y | x in own && y in below ensures x.path != y.path { OwnApart(q, nodes[0], x, y); }
      forall x, y | x in own + below && y in beside ensures x.path != y.path { HeadApart(q, nodes, x, y); }
    }
  }

  lemma HeadApart(q: Query, nodes: seq<Node>, x: Selection, y: Selection)
    requires AllPlain(nodes) && PairwiseApart(nodes) && nodes != []
    requires x in Among(VisitNode(q, nodes[0]).selected) + Search(q, VisitNode(q, nodes[0]).children).selected
    requires y in Search(q, nodes[1..]).selected
    ensures x.path != y.path
  {
    hide Under, VisitNode, HasPlainKeys;
    var head := [nodes[0]];
    assert head[1..] == [] && Search(q, []) == Found({}, {}, 0);
    assert x in Search(q, head).selected;
    SearchUnder(q, head, x);
    SearchUnder(q, nodes[1..], y);
    var i :| 0 <= i < |nodes| - 1 && Under(y.path, nodes[1..][i].path);
    assert nodes[1..][i] == nodes[i + 1];
    assert Apart(nodes[0].path, nodes[i + 1].path);
  }

  /** With plain keys no two places share a path. */
  lemma PlainKeysAreUnambiguous(q: Query, payload: Json)
    requires HasPlainKeys(payload)
    ensures IsUnambiguous(Places(q, payload))
  {
    hide Search, HasPlainKeys, ROOT, Places;
    SearchUnique(q, [Node(payload, ROOT, ROOT)]);
    PlacesAreFound(q, payload);
    AmongIs(Places(q, payload));
  }
}
