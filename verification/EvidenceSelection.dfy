/**
 Selecting, from a JSON payload, the rows and identity-array members bound to a set of requested
 targets. The program walks a queue; the specification is a recursive search of a forest of nodes.
 Which field names carry identities, and how a scalar becomes one, are parameters.
 */
module EvidenceSelection {
  import opened Outcomes
  import opened Texts
  import opened Decimals
  import opened JsonNumbers
  import opened JsonText

  datatype Rules = Rules(
    isIdentityField: Text -> bool,
    isIdentityMapField: Text -> bool,
    textIdentity: Text -> Option<Text>,
    numberIdentity: Number -> Option<Text>)

  /** What is looked for: the rules and the requested identities. */
  datatype Query = Query(rules: Rules, targets: set<Text>)

  /** A queued value with its rendered path and the name of the field it came from. */
  datatype Node = Node(value: Json, path: Text, field: Text)

  /** A place at which something is selected: the path it is written to, the value, the field the value stands in,
      whether it is an entry of an identity map (its field is then the identity), and the requested identities it
      counts as matched. */
  datatype Selection = Selection(path: Text, value: Json, field: Text, isEntry: bool, shown: set<Text>)

  datatype SelectionError = ScanTooLarge | TargetsMissing(missing: set<Text>)

  const MAXIMUM_NODES := 100000
  const ROOT := Lit("payload")

  // ---- Identities ----

  function ScalarIdentity(q: Query, v: Json): Option<Text> {
    match v
    case Str(s) => q.rules.textIdentity(s)
    case Num(n) => q.rules.numberIdentity(n)
    case _ => None
  }

  /** evidenceTargetIdentityValuesV1(item)[0]: the first identity of an array, or the item's own. */
  function FirstIdentity(q: Query, v: Json): Option<Text> {
    if v.Arr? then FirstOf(q, v.items) else ScalarIdentity(q, v)
  }

  function FirstOf(q: Query, items: seq<Json>): Option<Text> {
    if items == [] then None
    else if ScalarIdentity(q, items[0]).Some? then ScalarIdentity(q, items[0])
    else FirstOf(q, items[1..])
  }

  /** The requested identities among the scalar identity fields of a record. */
  function MemberMatches(q: Query, ms: seq<Member>): set<Text> {
    if ms == [] then {}
    else
      var id := ScalarIdentity(q, ms[0].value);
      (if q.rules.isIdentityField(ms[0].key) && id.Some? && id.value in q.targets then {id.value} else {})
      + MemberMatches(q, ms[1..])
  }

  function RecordMatches(q: Query, v: Json): set<Text> {
    if v.Obj? then MemberMatches(q, v.members) else {}
  }

  predicate IsTarget(q: Query, id: Option<Text>) { id.Some? && id.value in q.targets }

  /** Members of an identity array that name a requested target, and the targets they name. */
  function Scalars(q: Query, items: seq<Json>): seq<Json> {
    if items == [] then []
    else (if IsTarget(q, FirstIdentity(q, items[0])) then [items[0]] else []) + Scalars(q, items[1..])
  }

  function ScalarIds(q: Query, items: seq<Json>): set<Text> {
    if items == [] then {}
    else
      var id := FirstIdentity(q, items[0]);
      (if IsTarget(q, id) then {id.value} else {}) + ScalarIds(q, items[1..])
  }

  /** Records of an array that match, and the targets they match. */
  function Rows(q: Query, items: seq<Json>): seq<Json> {
    if items == [] then []
    else (if RecordMatches(q, items[0]) != {} then [items[0]] else []) + Rows(q, items[1..])
  }

  function RowIds(q: Query, items: seq<Json>): set<Text> {
    if items == [] then {} else RecordMatches(q, items[0]) + RowIds(q, items[1..])
  }

  // ---- Paths and children ----

  function KeyPath(path: Text, key: Text): Text { path + [DOT] + key }

  function IndexPath(path: Text, i: nat): Text { path + [OPEN_BRACKET] + Decimal(i) + [CLOSE_BRACKET] }

  predicate IsContainer(v: Json) { v.Arr? || v.Obj? }

  function ItemNodes(items: seq<Json>, from: nat, path: Text, field: Text): seq<Node>
    decreases |items| - from
  {
    if from >= |items| then []
    else
      var here := if IsContainer(items[from]) then [Node(items[from], IndexPath(path, from), field)] else [];
      here + ItemNodes(items, from + 1, path, field)
  }

  predicate IsMapped(q: Query, field: Text, key: Text) { key in q.targets && q.rules.isIdentityMapField(field) }

  function MemberNodes(q: Query, ms: seq<Member>, path: Text, field: Text): seq<Node> {
    if ms == [] then []
    else
      var m := ms[0];
      var here := if !IsMapped(q, field, m.key) && IsContainer(m.value)
        then [Node(m.value, KeyPath(path, m.key), m.key)] else [];
      here + MemberNodes(q, ms[1..], path, field)
  }

  function Entry(path: Text, m: Member): Selection { Selection(KeyPath(path, m.key), m.value, m.key, true, {m.key}) }

  /** Entries of an identity map that are keyed by a requested target. */
  function MappedEntries(q: Query, ms: seq<Member>, path: Text, field: Text): seq<Selection> {
    if ms == [] then []
    else (if IsMapped(q, field, ms[0].key) then [Entry(path, ms[0])] else []) + MappedEntries(q, ms[1..], path, field)
  }

  // ---- The specification ----

  /** What one node contributes, in the order in which it is written. `shadowed` are identities counted as matched whose
      array members are not selected, because matching records of the same array take their place. */
  datatype Visit = Visit(selected: seq<Selection>, shadowed: set<Text>, children: seq<Node>)

  function VisitNode(q: Query, node: Node): Visit {
    match node.value
    case Arr(items) =>
      var named := q.rules.isIdentityField(node.field);
      var scalars := if named then Scalars(q, items) else [];
      var ids := if named then ScalarIds(q, items) else {};
      if Rows(q, items) != []
        then Visit([Selection(node.path, Arr(Rows(q, items)), node.field, false, RowIds(q, items))], ids, [])
      else
        var own := if scalars != [] then [Selection(node.path, Arr(scalars), node.field, false, ids)] else [];
        Visit(own, {}, ItemNodes(items, 0, node.path, node.field))
    case Obj(ms) =>
      if MemberMatches(q, ms) != {} then
        Visit([Selection(node.path, node.value, node.field, false, MemberMatches(q, ms))], {}, [])
      else Visit(MappedEntries(q, ms, node.path, node.field), {}, MemberNodes(q, ms, node.path, node.field))
    case _ => Visit([], {}, [])
  }

  function Among(places: seq<Selection>): set<Selection> { set x | x in places }

  /** All identities a set of selections is evidence for. */
  ghost function Shown(s: set<Selection>): set<Text> {
    set x, id | x in s && id in x.shown :: id
  }

  /** The result of searching a forest depth first. */
  datatype Found = Found(selected: set<Selection>, shadowed: set<Text>, visited: nat)

  function Size(v: Json): nat
    decreases v, 0
  {
    match v
    case Arr(items) => 1 + SizeItems(items)
    case Obj(ms) => 1 + SizeMembers(ms)
    case _ => 1
  }

  function SizeItems(items: seq<Json>): nat
    decreases items, 0
  {
    if items == [] then 0 else Size(items[0]) + SizeItems(items[1..])
  }

  function SizeMembers(ms: seq<Member>): nat
    decreases ms, 0
  {
    if ms == [] then 0
    else Size(ms[0].value) + SizeMembers(ms[1..])
  }

  function Weight(nodes: seq<Node>): nat {
    if nodes == [] then 0 else Size(nodes[0].value) + Weight(nodes[1..])
  }

  lemma {:induction false} ItemNodesWeight(items: seq<Json>, from: nat, path: Text, field: Text)
    ensures from <= |items| ==> Weight(ItemNodes(items, from, path, field)) <= SizeItems(items[from..])
    decreases |items| - from
  {
    if from < |items| {
      ItemNodesWeight(items, from + 1, path, field);
      assert items[from..][1..] == items[from + 1..];
      WeightHead(ItemNodes(items, from, path, field), ItemNodes(items, from + 1, path, field));
    }
  }

  lemma {:induction false} MemberNodesWeight(q: Query, ms: seq<Member>, path: Text, field: Text)
    ensures Weight(MemberNodes(q, ms, path, field)) <= SizeMembers(ms)
  {
    if ms != [] {
      MemberNodesWeight(q, ms[1..], path, field);
      WeightHead(MemberNodes(q, ms, path, field), MemberNodes(q, ms[1..], path, field));
    }
  }

  lemma WeightHead(nodes: seq<Node>, rest: seq<Node>)
    ensures nodes == rest ==> Weight(nodes) == Weight(rest)
    ensures nodes != [] && nodes[1..] == rest ==> Weight(nodes) == Size(nodes[0].value) + Weight(rest)
  {
  }

  lemma ChildrenWeight(q: Query, node: Node)
    ensures Weight(VisitNode(q, node).children) < Size(node.value)
  {
    match node.value
    case Arr(items) =>
      ItemNodesWeight(items, 0, node.path, node.field);
      assert items[0..] == items;
    case Obj(ms) => MemberNodesWeight(q, ms, node.path, node.field);
    case _ =>
  }

  function Search(q: Query, nodes: seq<Node>): Found
    decreases Weight(nodes)
  {
    if nodes == [] then Found({}, {}, 0)
    else
      ChildrenWeight(q, nodes[0]);
      var visit := VisitNode(q, nodes[0]);
      var below := Search(q, visit.children);
      var beside := Search(q, nodes[1..]);
      Found(Among(visit.selected) + below.selected + beside.selected, visit.shadowed + below.shadowed + beside.shadowed,
            1 + below.visited + beside.visited)
  }

  function SearchPayload(q: Query, payload: Json): Found { Search(q, [Node(payload, ROOT, ROOT)]) }

  /** The order of a search does not matter to what it finds. */
  lemma {:induction false} SearchConcat(q: Query, a: seq<Node>, b: seq<Node>)
    ensures var x, y, z := Search(q, a), Search(q, b), Search(q, a + b);
      z.selected == x.selected + y.selected && z.shadowed == x.shadowed + y.shadowed
        && z.visited == x.visited + y.visited
    decreases |a|
  {
    if a == [] {
      assert a + b == b;
    } else {
      assert (a + b)[1..] == a[1..] + b;
      SearchConcat(q, a[1..], b);
    }
  }

  /** Taking the first node off a queue and appending its children leaves the same to be found. */
  lemma SearchStep(q: Query, queue: seq<Node>)
    requires queue != []
    ensures
      var visit := VisitNode(q, queue[0]);
      var before, after := Search(q, queue), Search(q, queue[1..] + visit.children);
      && before.selected == Among(visit.selected) + after.selected
      && before.shadowed == visit.shadowed + after.shadowed
      && before.visited == 1 + after.visited
  {
    SearchConcat(q, queue[1..], VisitNode(q, queue[0]).children);
  }

  // ---- The order in which places are written ----

  lemma {:induction false} WeightConcat(a: seq<Node>, b: seq<Node>)
    ensures Weight(a + b) == Weight(a) + Weight(b)
  {
    if a == [] {
      assert a + b == b;
    } else {
      assert (a + b)[1..] == a[1..] + b;
      WeightConcat(a[1..], b);
    }
  }

  lemma QueueWeight(q: Query, queue: seq<Node>)
    requires queue != []
    ensures Weight(queue[1..] + VisitNode(q, queue[0]).children) < Weight(queue)
  {
    ChildrenWeight(q, queue[0]);
    WeightConcat(queue[1..], VisitNode(q, queue[0]).children);
  }

  /** The places a queue of nodes leads to, in the order in which the queue is worked off. */
  function Walk(q: Query, queue: seq<Node>): seq<Selection>
    decreases Weight(queue)
  {
    if queue == [] then []
    else
      QueueWeight(q, queue);
      VisitNode(q, queue[0]).selected + Walk(q, queue[1..] + VisitNode(q, queue[0]).children)
  }

  function Own(q: Query, nodes: seq<Node>): seq<Selection> {
    if nodes == [] then [] else VisitNode(q, nodes[0]).selected + Own(q, nodes[1..])
  }

  function Below(q: Query, nodes: seq<Node>): seq<Node> {
    if nodes == [] then [] else VisitNode(q, nodes[0]).children + Below(q, nodes[1..])
  }

  lemma {:induction false} BelowWeight(q: Query, nodes: seq<Node>)
    ensures Weight(Below(q, nodes)) <= Weight(nodes) && (nodes != [] ==> Weight(Below(q, nodes)) < Weight(nodes))
  {
    if nodes != [] {
      BelowWeight(q, nodes[1..]);
      ChildrenWeight(q, nodes[0]);
      WeightConcat(VisitNode(q, nodes[0]).children, Below(q, nodes[1..]));
    }
  }

  /** The places of a forest, level by level and from left to right on each. */
  function LevelOrder(q: Query, nodes: seq<Node>): seq<Selection>
    decreases Weight(nodes)
  {
    if nodes == [] then []
    else
      BelowWeight(q, nodes);
      Own(q, nodes) + LevelOrder(q, Below(q, nodes))
  }

  /** All places of a payload at which something is selected. */
  function Places(q: Query, payload: Json): seq<Selection> { LevelOrder(q, [Node(payload, ROOT, ROOT)]) }

  lemma {:induction false} WalkLevel(q: Query, a: seq<Node>, b: seq<Node>)
    ensures Walk(q, a + b) == Own(q, a) + Walk(q, b + Below(q, a))
    decreases |a|
  {
    hide VisitNode;
    if a == [] {
      assert a + b == b && b + [] == b;
    } else {
      var visit := VisitNode(q, a[0]);
      assert (a + b)[1..] + visit.children == a[1..] + (b + visit.children);
      WalkLevel(q, a[1..], b + visit.children);
      assert b + visit.children + Below(q, a[1..]) == b + Below(q, a);
    }
  }

  /** Appending children to a queue visits a forest level by level. */
  lemma {:induction false} WalkIsLevelOrder(q: Query, nodes: seq<Node>)
    ensures Walk(q, nodes) == LevelOrder(q, nodes)
    decreases Weight(nodes)
  {
    hide VisitNode, Own, Below;
    if nodes != [] {
      assert nodes + [] == nodes && [] + Below(q, nodes) == Below(q, nodes);
      WalkLevel(q, nodes, []);
      BelowWeight(q, nodes);
      WalkIsLevelOrder(q, Below(q, nodes));
    }
  }

  /** Level by level, the same places are found as depth first. */
  lemma {:induction false} WalkFinds(q: Query, queue: seq<Node>)
    ensures Among(Walk(q, queue)) == Search(q, queue).selected
    decreases Weight(queue)
  {
    hide VisitNode;
    if queue != [] {
      QueueWeight(q, queue);
      WalkFinds(q, queue[1..] + VisitNode(q, queue[0]).children);
      SearchStep(q, queue);
    }
  }

  lemma PlacesAreFound(q: Query, payload: Json)
    ensures Among(Places(q, payload)) == SearchPayload(q, payload).selected
  {
    hide Walk, Search, LevelOrder, ROOT;
    WalkIsLevelOrder(q, [Node(payload, ROOT, ROOT)]);
    WalkFinds(q, [Node(payload, ROOT, ROOT)]);
  }

  /** Writing values to their paths, a later one over an earlier one. */
  function Written(m: map<Text, Json>, places: seq<Selection>): map<Text, Json>
    decreases |places|
  {
    if places == [] then m else Written(m[places[0].path := places[0].value], places[1..])
  }

  lemma {:induction false} WrittenConcat(m: map<Text, Json>, a: seq<Selection>, b: seq<Selection>)
    ensures Written(m, a + b) == Written(Written(m, a), b)
    decreases |a|
  {
    if a == [] {
      assert a + b == b;
    } else {
      assert (a + b)[1..] == a[1..] + b;
      WrittenConcat(m[a[0].path := a[0].value], a[1..], b);
    }
  }

  lemma WrittenOne(m: map<Text, Json>, x: Selection)
    ensures Written(m, []) == m && Written(m, [x]) == m[x.path := x.value]
  {
  }

  // ---- The program's state against the specification ----

  ghost function Matched(f: Found): set<Text> { Shown(f.selected) + f.shadowed }

  /** What has been recorded together with what the queue still holds is what the payload holds. */
  ghost predicate InStep(q: Query, payload: Json, rest: seq<Node>, selections: map<Text, Json>, matched: set<Text>,
      visited: nat)
  {
    var all, now := SearchPayload(q, payload), Search(q, rest);
    && Written(selections, Walk(q, rest)) == Written(map[], Places(q, payload))
    && matched + Matched(now) == Matched(all)
    && now.visited + visited == all.visited
  }

  lemma ShownUnion(a: set<Selection>, b: set<Selection>)
    ensures Shown(a + b) == Shown(a) + Shown(b)
  {
    forall id ensures id in Shown(a + b) <==> id in Shown(a) + Shown(b) {
      if id in Shown(a + b) {
        var x :| x in a + b && id in x.shown;
      }
      if id in Shown(a) { var x :| x in a && id in x.shown; assert x in a + b; }
      if id in Shown(b) { var x :| x in b && id in x.shown; assert x in a + b; }
    }
  }

  lemma StaysInStep(q: Query, payload: Json, rest: seq<Node>, selections: map<Text, Json>, matched: set<Text>,
      visited: nat)
    requires rest != [] && InStep(q, payload, rest, selections, matched, visited)
    ensures var visit := VisitNode(q, rest[0]);
      InStep(q, payload, rest[1..] + visit.children, Written(selections, visit.selected),
             matched + Shown(Among(visit.selected)) + visit.shadowed, visited + 1)
  {
    hide VisitNode, Shown, Places, Written, Search, Among;
    var visit := VisitNode(q, rest[0]);
    var next := rest[1..] + visit.children;
    SearchStep(q, rest);
    ShownUnion(Among(visit.selected), Search(q, next).selected);
    WrittenConcat(selections, visit.selected, Walk(q, next));
  }

  // ---- selectExactEvidenceTargetsV1 ----

  method SelectScalars(q: Query, items: seq<Json>) returns (selected: seq<Json>, ids: set<Text>)
    ensures selected == Scalars(q, items) && ids == ScalarIds(q, items)
  {
    hide FirstIdentity;
    selected, ids := [], {};
    for i := 0 to |items|
      invariant selected + Scalars(q, items[i..]) == Scalars(q, items)
      invariant ids + ScalarIds(q, items[i..]) == ScalarIds(q, items)
    {
      assert items[i..][1..] == items[i + 1..];
      var identity := FirstIdentity(q, items[i]);
      if identity.Some? && identity.value in q.targets {
        ids := ids + {identity.value};
        selected := selected + [items[i]];
      }
    }
  }

  /** What the item at i adds to the rows of those after it. */
  lemma RowsStep(q: Query, items: seq<Json>, i: nat)
    requires i < |items|
    ensures Rows(q, items[i..]) == (if RecordMatches(q, items[i]) != {} then [items[i]] else []) +
      Rows(q, items[i + 1..])
    ensures RowIds(q, items[i..]) == RecordMatches(q, items[i]) + RowIds(q, items[i + 1..])
  {
    hide RecordMatches;
    assert items[i..][0] == items[i] && items[i..][1..] == items[i + 1..];
  }

  lemma RowsEnd(q: Query, items: seq<Json>)
    ensures Rows(q, items[|items|..]) == [] && RowIds(q, items[|items|..]) == {} && items[0..] == items
  {
  }

  method SelectRows(q: Query, items: seq<Json>) returns (selected: seq<Json>, ids: set<Text>)
    ensures selected == Rows(q, items) && ids == RowIds(q, items)
  {
    hide RecordMatches, Rows, RowIds;
    selected, ids := [], {};
    RowsEnd(q, items);
    for i := 0 to |items|
      invariant selected + Rows(q, items[i..]) == Rows(q, items)
      invariant ids + RowIds(q, items[i..]) == RowIds(q, items)
    {
      RowsStep(q, items, i);
      var matches := RecordMatches(q, items[i]);
      ids := ids + matches;
      if matches != {} {
        Regroup(selected, items[i], Rows(q, items[i + 1..]));
        selected := selected + [items[i]];
      }
    }
  }

  method QueueItems(items: seq<Json>, path: Text, field: Text) returns (children: seq<Node>)
    ensures children == ItemNodes(items, 0, path, field)
  {
    hide IndexPath;
    children := [];
    for i := 0 to |items|
      invariant children + ItemNodes(items, i, path, field) == ItemNodes(items, 0, path, field)
    {
      if IsContainer(items[i]) {
        children := children + [Node(items[i], IndexPath(path, i), field)];
      }
    }
  }

  /** The rows and identity members of one array, and the containers to look into when no row matches. */
  method VisitArray(q: Query, node: Node, selections: map<Text, Json>)
      returns (after: map<Text, Json>, matched: set<Text>, children: seq<Node>)
    requires node.value.Arr?
    ensures after == Written(selections, VisitNode(q, node).selected)
    ensures matched == Shown(Among(VisitNode(q, node).selected)) + VisitNode(q, node).shadowed
    ensures children == VisitNode(q, node).children
  {
    hide Scalars, ScalarIds, Rows, RowIds, ItemNodes, Written, Shown, Among;
    var items := node.value.items;
    after, matched, children := selections, {}, [];
    var scalars: seq<Json> := [];
    if q.rules.isIdentityField(node.field) {
      scalars, matched := SelectScalars(q, items);
      NoScalarsNoIds(q, items);
      if |scalars| > 0 { after := after[node.path := Arr(scalars)]; }
    }
    ghost var own := Selection(node.path, Arr(scalars), node.field, false, matched);
    ShownOne(own);
    WrittenOne(selections, own);
    var rows, ids := SelectRows(q, items);
    NoRowsNoIds(q, items);
    if |rows| > 0 {
      own := Selection(node.path, Arr(rows), node.field, false, ids);
      ShownOne(own);
      WrittenOne(selections, own);
      assert after[node.path := Arr(rows)] == selections[node.path := Arr(rows)];
      after := after[node.path := Arr(rows)];
      matched := matched + ids;
      return;
    }
    children := QueueItems(items, node.path, node.field);
  }

  lemma ShownOne(x: Selection)
    ensures Shown(Among([x])) == x.shown && Shown(Among([])) == {}
  {
    forall id | id in x.shown ensures id in Shown(Among([x])) { assert x in [x]; }
  }

  lemma {:induction false} NoScalarsNoIds(q: Query, items: seq<Json>)
    ensures Scalars(q, items) == [] <==> ScalarIds(q, items) == {}
  {
    if items != [] { NoScalarsNoIds(q, items[1..]); }
  }

  lemma {:induction false} NoRowsNoIds(q: Query, items: seq<Json>)
    ensures Rows(q, items) == [] <==> RowIds(q, items) == {}
  {
    if items != [] { NoRowsNoIds(q, items[1..]); }
  }

  /** A record that matches, or the identity-map entries and containers of one that does not. */
  method VisitRecord(q: Query, node: Node, selections: map<Text, Json>)
      returns (after: map<Text, Json>, matched: set<Text>, children: seq<Node>)
    requires node.value.Obj?
    ensures after == Written(selections, VisitNode(q, node).selected)
    ensures matched == Shown(Among(VisitNode(q, node).selected)) + VisitNode(q, node).shadowed
    ensures children == VisitNode(q, node).children
  {
    hide Written, Shown, Among, MemberMatches, KeyPath, MappedEntries, MemberNodes;
    var ms := node.value.members;
    var matches := RecordMatches(q, node.value);
    ghost var own := Selection(node.path, node.value, node.field, false, matches);
    ShownOne(own);
    WrittenOne(selections, own);
    if matches != {} { return selections[node.path := node.value], matches, []; }
    after, matched, children := selections, {}, [];
    ghost var done: seq<Selection> := [];
    MembersEnd(q, ms, node.path, node.field);
    for i := 0 to |ms|
      invariant done + MappedEntries(q, ms[i..], node.path, node.field) == MappedEntries(q, ms, node.path, node.field)
      invariant children + MemberNodes(q, ms[i..], node.path, node.field) == MemberNodes(q, ms, node.path, node.field)
      invariant matched == Shown(Among(done)) && after == Written(selections, done)
    {
      MembersStep(q, ms, i, node.path, node.field);
      var key, value := ms[i].key, ms[i].value;
      if key in q.targets && q.rules.isIdentityMapField(node.field) {
        AddEntry(selections, done, Entry(node.path, ms[i]));
        done := done + [Entry(node.path, ms[i])];
        after := after[KeyPath(node.path, key) := value];
        matched := matched + {key};
      } else if IsContainer(value) {
        children := children + [Node(value, KeyPath(node.path, key), key)];
      }
    }
    MembersEnd(q, ms, node.path, node.field);
    assert done + [] == done && children + [] == children;
  }

  lemma AddEntry(selections: map<Text, Json>, done: seq<Selection>, x: Selection)
    ensures Written(selections, done + [x]) == Written(selections, done)[x.path := x.value]
    ensures Shown(Among(done + [x])) == Shown(Among(done)) + x.shown
  {
    WrittenConcat(selections, done, [x]);
    WrittenOne(Written(selections, done), x);
    ShownOne(x);
    ShownUnion(Among(done), Among([x]));
    assert Among(done + [x]) == Among(done) + Among([x]);
  }

  /** What the member at i adds to the entries and the nodes of those after it. */
  lemma MembersStep(q: Query, ms: seq<Member>, i: nat, path: Text, field: Text)
    requires i < |ms|
    ensures
      var m := ms[i];
      var entry := if IsMapped(q, field, m.key) then [Entry(path, m)] else [];
      var node := if !IsMapped(q, field, m.key) && IsContainer(m.value)
        then [Node(m.value, KeyPath(path, m.key), m.key)] else [];
      && MappedEntries(q, ms[i..], path, field) == entry + MappedEntries(q, ms[i + 1..], path, field)
      && MemberNodes(q, ms[i..], path, field) == node + MemberNodes(q, ms[i + 1..], path, field)
  {
    assert ms[i..][0] == ms[i] && ms[i..][1..] == ms[i + 1..];
  }

  lemma MembersEnd(q: Query, ms: seq<Member>, path: Text, field: Text)
    ensures MappedEntries(q, ms[|ms|..], path, field) == [] && MemberNodes(q, ms[|ms|..], path, field) == []
      && ms[0..] == ms
  {
  }

  /** The queue-based search writes exactly the places of the payload, level by level, and succeeds exactly when the
      payload is within the node limit and every requested identity was matched. */
  method SelectExactEvidenceTargets(q: Query, payload: Json) returns (r: Result<map<Text, Json>, SelectionError>)
    ensures SearchPayload(q, payload).visited > MAXIMUM_NODES ==> r == Err(ScanTooLarge)
    ensures SearchPayload(q, payload).visited <= MAXIMUM_NODES ==>
      var missing := q.targets - Matched(SearchPayload(q, payload));
      r == if missing != {} then Err(TargetsMissing(missing)) else Ok(Written(map[], Places(q, payload)))
  {
    hide Search, VisitNode, Walk, Places, Written, Shown, Among, ROOT, InStep;
    var queue := [Node(payload, ROOT, ROOT)];
    var selections: map<Text, Json> := map[];
    var matched: set<Text> := {};
    var cursor, visited: nat := 0, 0;
    StartsInStep(q, payload);
    assert queue[cursor..] == queue;
    while cursor < |queue|
      invariant cursor <= |queue|
      invariant InStep(q, payload, queue[cursor..], selections, matched, visited)
      invariant visited <= MAXIMUM_NODES
      decreases Search(q, queue[cursor..]).visited
    {
      var current := queue[cursor];
      ghost var rest := queue[cursor..];
      SearchStep(q, rest);
      StaysInStep(q, payload, rest, selections, matched, visited);
      VisitedInStep(q, payload, rest, selections, matched, visited);
      cursor, visited := cursor + 1, visited + 1;
      if visited > MAXIMUM_NODES { return Err(ScanTooLarge); }
      var after, found, children := selections, {}, [];
      match current.value {
        case Arr(_) => after, found, children := VisitArray(q, current, selections);
        case Obj(_) => after, found, children := VisitRecord(q, current, selections);
        case _ => VisitScalar(q, current, selections);
      }
      RegroupFound(matched, Shown(Among(VisitNode(q, current).selected)), VisitNode(q, current).shadowed);
      selections := after;
      matched := matched + found;
      AppendToQueue(queue, cursor, children);
      queue := queue + children;
    }
    assert queue[cursor..] == [];
    EndsInStep(q, payload, selections, matched, visited);
    var missing := q.targets - matched;
    if missing != {} { return Err(TargetsMissing(missing)); }
    return Ok(selections);
  }

  lemma RegroupFound(a: set<Text>, b: set<Text>, c: set<Text>)
    ensures a + b + c == a + (b + c)
  {
  }

  lemma AppendToQueue(queue: seq<Node>, cursor: nat, children: seq<Node>)
    requires 0 < cursor <= |queue|
    ensures (queue + children)[cursor..] == queue[cursor - 1..][1..] + children
  {
  }

  lemma VisitedInStep(q: Query, payload: Json, rest: seq<Node>, selections: map<Text, Json>, matched: set<Text>,
      visited: nat)
    requires InStep(q, payload, rest, selections, matched, visited)
    ensures Search(q, rest).visited + visited == SearchPayload(q, payload).visited
  {
  }

  lemma StartsInStep(q: Query, payload: Json)
    ensures InStep(q, payload, [Node(payload, ROOT, ROOT)], map[], {}, 0)
  {
    hide Walk, Search, LevelOrder, ROOT, Written;
    WalkIsLevelOrder(q, [Node(payload, ROOT, ROOT)]);
  }

  lemma EndsInStep(q: Query, payload: Json, selections: map<Text, Json>, matched: set<Text>, visited: nat)
    requires InStep(q, payload, [], selections, matched, visited)
    ensures selections == Written(map[], Places(q, payload)) && matched == Matched(SearchPayload(q, payload))
    ensures visited == SearchPayload(q, payload).visited
  {
    hide Places, SearchPayload;
    ShownOne(Selection([], Null, [], false, {}));
  }

  lemma VisitScalar(q: Query, node: Node, selections: map<Text, Json>)
    requires !IsContainer(node.value)
    ensures VisitNode(q, node) == Visit([], {}, []) && Shown(Among([])) == {} && Written(selections, []) == selections
  {
    ShownOne(Selection([], Null, [], false, {}));
  }
}
