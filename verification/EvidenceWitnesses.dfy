/**
 Whether every requested identity can be read off the selection. Two things can prevent it: matching records of an
 identity array take the place of matching members, and another place can write to the same path later.
 */
module EvidenceWitnesses {
  import opened Outcomes
  import opened Texts
  import opened JsonNumbers
  import opened JsonText
  import opened Sorting
  import opened EvidenceSelection
  import opened EvidencePlaces
  import opened EvidenceTheorems
  import IdentityNames

  // ---- What a selection shows ----

  /** The value names the identity itself: as a record, as an array of records, or as an array of identities. */
  ghost predicate Names(q: Query, field: Text, v: Json, id: Text) {
    || Identifies(q, v, id)
    || (v.Arr? && exists i ::
          && 0 <= i < |v.items|
          && (Identifies(q, v.items[i], id) || (q.rules.isIdentityField(field) && PointsTo(q, v.items[i], id))))
  }

  /** The identity can be read off a place: off its value, or off its key in an identity map. */
  ghost predicate Shows(q: Query, x: Selection, id: Text) {
    Names(q, x.field, x.value, id) || (x.isEntry && x.field == id)
  }

  ghost predicate IsShown(q: Query, selected: set<Selection>, id: Text) {
    exists x :: x in selected && Shows(q, x, id)
  }

  /** Every requested identity can be read off some place of the payload whose value the returned map holds
      at its path. */
  ghost predicate AllWitnessed(q: Query, payload: Json, m: map<Text, Json>) {
    forall id :: id in q.targets ==> IsWitnessed(q, payload, m, id)
  }

  ghost predicate IsWitnessed(q: Query, payload: Json, m: map<Text, Json>, id: Text) {
    exists x :: x in Places(q, payload) && Shows(q, x, id) && x.path in m && m[x.path] == x.value
  }

  // ---- The guards, on the payload ----

  /** Some place the search reaches keeps the identity: a matching record, a member of an identity array without
      matching records, or an entry of an identity map. */
  ghost predicate Stands(q: Query, v: Json, field: Text, id: Text) {
    match v
    case Arr(items) =>
      if HasRow(q, items) then exists i :: 0 <= i < |items| && Identifies(q, items[i], id)
      else
        || (q.rules.isIdentityField(field) && exists i :: 0 <= i < |items| && PointsTo(q, items[i], id))
        || exists i :: 0 <= i < |items| && Stands(q, items[i], field, id)
    case Obj(ms) =>
      if IsRow(q, v) then Identifies(q, v, id)
      else
        exists i :: 0 <= i < |ms| &&
          (if IsMapped(q, field, ms[i].key) then id == ms[i].key || Names(q, ms[i].key, ms[i].value, id)
           else Stands(q, ms[i].value, ms[i].key, id))
    case _ => false
  }

  /** Some identity array the search reaches names the identity beside matching records, which take its place. */
  ghost predicate IsDisplaced(q: Query, v: Json, field: Text, id: Text) {
    match v
    case Arr(items) =>
      if HasRow(q, items) then
        q.rules.isIdentityField(field) && exists i :: 0 <= i < |items| && PointsTo(q, items[i], id)
      else exists i :: 0 <= i < |items| && IsDisplaced(q, items[i], field, id)
    case Obj(ms) =>
      !IsRow(q, v) && exists i ::
        0 <= i < |ms| && !IsMapped(q, field, ms[i].key) && IsDisplaced(q, ms[i].value, ms[i].key, id)
    case _ => false
  }

  /** Every place that keeps the identity loses its path to a later place with another value. */
  ghost predicate IsOverwritten(q: Query, payload: Json, id: Text) {
    forall x :: x in Places(q, payload) && Shows(q, x, id) ==> !IsKept(Places(q, payload), x)
  }

  // ---- The guards are what the search finds ----

  ghost predicate SomeItem(items: seq<Json>, from: nat, field: Text, holds: (Json, Text) -> bool) {
    exists i :: from <= i < |items| && holds(items[i], field)
  }

  ghost predicate SomeNode(nodes: seq<Node>, holds: (Json, Text) -> bool) {
    exists i :: 0 <= i < |nodes| && holds(nodes[i].value, nodes[i].field)
  }

  ghost predicate SomeMember(q: Query, ms: seq<Member>, field: Text, holds: (Json, Text) -> bool) {
    exists i :: 0 <= i < |ms| && !IsMapped(q, field, ms[i].key) && holds(ms[i].value, ms[i].key)
  }

  ghost predicate OnContainers(holds: (Json, Text) -> bool) {
    forall v, field :: holds(v, field) ==> IsContainer(v)
  }

  lemma SomeNodeCons(head: Node, rest: seq<Node>, holds: (Json, Text) -> bool)
    ensures SomeNode([head] + rest, holds) <==> holds(head.value, head.field) || SomeNode(rest, holds)
  {
    var all := [head] + rest;
    if i :| 0 <= i < |rest| && holds(rest[i].value, rest[i].field) { assert all[i + 1] == rest[i]; }
    if i :| 0 <= i < |all| && holds(all[i].value, all[i].field) {
      if i > 0 { assert all[i] == rest[i - 1]; }
    }
    assert all[0] == head;
  }

  lemma {:induction false} ItemNodesHave(items: seq<Json>, from: nat, path: Text, field: Text,
      holds: (Json, Text) -> bool)
    requires OnContainers(holds)
    ensures SomeNode(ItemNodes(items, from, path, field), holds) <==> SomeItem(items, from, field, holds)
    decreases |items| - from
  {
    hide IndexPath;
    if from < |items| {
      ItemNodesHave(items, from + 1, path, field, holds);
      var rest := ItemNodes(items, from + 1, path, field);
      if IsContainer(items[from]) { SomeNodeCons(Node(items[from], IndexPath(path, from), field), rest, holds); }
      assert [] + rest == rest;
    }
  }

  lemma SomeMemberCons(q: Query, ms: seq<Member>, field: Text, holds: (Json, Text) -> bool)
    requires ms != []
    ensures SomeMember(q, ms, field, holds) <==>
      (!IsMapped(q, field, ms[0].key) && holds(ms[0].value, ms[0].key)) || SomeMember(q, ms[1..], field, holds)
  {
    hide IsMapped;
    if i :| 0 <= i < |ms| - 1 && !IsMapped(q, field, ms[1..][i].key) && holds(ms[1..][i].value, ms[1..][i].key) {
      assert ms[i + 1] == ms[1..][i];
    }
    if i :| 0 <= i < |ms| && !IsMapped(q, field, ms[i].key) && holds(ms[i].value, ms[i].key) {
      if i > 0 { assert ms[1..][i - 1] == ms[i]; }
    }
  }

  lemma {:induction false} MemberNodesHave(q: Query, ms: seq<Member>, path: Text, field: Text,
      holds: (Json, Text) -> bool)
    requires OnContainers(holds)
    ensures SomeNode(MemberNodes(q, ms, path, field), holds) <==> SomeMember(q, ms, field, holds)
  {
    hide KeyPath, IsMapped, SomeMember, SomeNode;
    if ms == [] {
      NoMembers(q, path, field, holds);
    } else {
      MemberNodesHave(q, ms[1..], path, field, holds);
      SomeMemberCons(q, ms, field, holds);
      var rest := MemberNodes(q, ms[1..], path, field);
      SomeNodeCons(Node(ms[0].value, KeyPath(path, ms[0].key), ms[0].key), rest, holds);
      assert [] + rest == rest;
    }
  }

  lemma NoMembers(q: Query, path: Text, field: Text, holds: (Json, Text) -> bool)
    ensures !SomeNode(MemberNodes(q, [], path, field), holds) && !SomeMember(q, [], field, holds)
  {
  }

  lemma IsShownUnion(q: Query, a: set<Selection>, b: set<Selection>, id: Text)
    ensures IsShown(q, a + b, id) <==> IsShown(q, a, id) || IsShown(q, b, id)
  {
    hide Shows;
    if x :| x in a && Shows(q, x, id) { assert x in a + b; }
    if x :| x in b && Shows(q, x, id) { assert x in a + b; }
  }

  lemma ShownSingle(q: Query, x: Selection, id: Text)
    ensures IsShown(q, Among([x]), id) <==> Shows(q, x, id)
    ensures !IsShown(q, Among([]), id)
  {
    hide Shows;
    if Shows(q, x, id) { assert x in Among([x]); }
  }

  ghost predicate AnyOf(items: seq<Json>, holds: Json -> bool) {
    exists i :: 0 <= i < |items| && holds(items[i])
  }

  function ByRecord(q: Query, id: Text): Json -> bool { (item: Json) => Identifies(q, item, id) }

  ghost function ByIdentity(q: Query, id: Text): Json -> bool { (item: Json) => PointsTo(q, item, id) }

  lemma AnyOfCons(head: Json, rest: seq<Json>, holds: Json -> bool)
    ensures AnyOf([head] + rest, holds) <==> holds(head) || AnyOf(rest, holds)
  {
    var all := [head] + rest;
    assert all[0] == head;
    if i :| 0 <= i < |rest| && holds(rest[i]) { assert all[i + 1] == rest[i]; }
    if i :| 0 <= i < |all| && holds(all[i]) {
      if i > 0 { assert all[i] == rest[i - 1]; }
    }
  }

  ghost predicate AllRecords(items: seq<Json>) { forall i :: 0 <= i < |items| ==> items[i].Obj? }

  ghost predicate NoRecords(items: seq<Json>) { forall i :: 0 <= i < |items| ==> !items[i].Obj? }

  lemma {:induction false} RowsName(q: Query, items: seq<Json>, id: Text)
    ensures AnyOf(Rows(q, items), ByRecord(q, id)) <==> id in RowIds(q, items)
    ensures AllRecords(Rows(q, items))
  {
    hide RecordMatches, Identifies, AnyOf;
    if items == [] {
      NoneOf(ByRecord(q, id));
    } else {
      RecordIdentifies(q, items[0], id);
      MatchesAreRecords(q, items[0]);
      RowsName(q, items[1..], id);
      AnyOfCons(items[0], Rows(q, items[1..]), ByRecord(q, id));
      assert [] + Rows(q, items[1..]) == Rows(q, items[1..]);
    }
  }

  lemma MatchesAreRecords(q: Query, v: Json)
    ensures RecordMatches(q, v) != {} ==> v.Obj?
  {
  }

  lemma NoneOf(holds: Json -> bool)
    ensures !AnyOf([], holds)
  {
  }

  lemma {:induction false} ScalarsName(q: Query, items: seq<Json>, id: Text)
    ensures AnyOf(Scalars(q, items), ByIdentity(q, id)) <==> id in ScalarIds(q, items)
    ensures NoRecords(Scalars(q, items))
  {
    hide FirstOf, AnyOf, PointsTo;
    if items == [] {
      NoneOf(ByIdentity(q, id));
    } else {
      PointsIs(q, items[0], id);
      ScalarsName(q, items[1..], id);
      AnyOfCons(items[0], Scalars(q, items[1..]), ByIdentity(q, id));
      assert [] + Scalars(q, items[1..]) == Scalars(q, items[1..]);
    }
  }

  /** An array shows what it displays: its rows, or its identity members. */
  lemma ArrayShows(q: Query, node: Node, id: Text)
    requires node.value.Arr?
    ensures IsShown(q, Among(VisitNode(q, node).selected), id) <==>
      if Rows(q, node.value.items) != [] then id in RowIds(q, node.value.items)
      else q.rules.isIdentityField(node.field) && id in ScalarIds(q, node.value.items)
  {
    hide Rows, RowIds, Scalars, ScalarIds, ItemNodes, IsShown, MemberMatches, FirstIdentity, AnyOf, Names;
    var items := node.value.items;
    var rows, scalars := Rows(q, items), Scalars(q, items);
    RowsName(q, items, id);
    ScalarsName(q, items, id);
    NoScalarsNoIds(q, items);
    ShownSingle(q, Selection(node.path, Arr(rows), node.field, false, RowIds(q, items)), id);
    ShownSingle(q, Selection(node.path, Arr(scalars), node.field, false, ScalarIds(q, items)), id);
    RecordsAreNotIdentities(q, rows, id);
    IdentitiesAreNotRecords(q, scalars, id);
  }

  lemma RecordsAreNotIdentities(q: Query, rows: seq<Json>, id: Text)
    requires AllRecords(rows)
    ensures forall field :: Names(q, field, Arr(rows), id) <==> AnyOf(rows, ByRecord(q, id))
  {
    hide Identifies;
    NotIdentified(q, Arr(rows), id);
  }

  lemma IdentitiesAreNotRecords(q: Query, scalars: seq<Json>, id: Text)
    requires NoRecords(scalars)
    ensures forall field :: Names(q, field, Arr(scalars), id) <==>
      q.rules.isIdentityField(field) && AnyOf(scalars, ByIdentity(q, id))
  {
    hide PointsTo;
  }

  ghost predicate SomeMapped(q: Query, ms: seq<Member>, field: Text, id: Text) {
    exists i :: 0 <= i < |ms| && IsMapped(q, field, ms[i].key)
      && (id == ms[i].key || Names(q, ms[i].key, ms[i].value, id))
  }

  lemma SomeMappedCons(q: Query, ms: seq<Member>, field: Text, id: Text)
    requires ms != []
    ensures SomeMapped(q, ms, field, id) <==>
      (IsMapped(q, field, ms[0].key) && (id == ms[0].key || Names(q, ms[0].key, ms[0].value, id)))
        || SomeMapped(q, ms[1..], field, id)
  {
    hide IsMapped, Names;
    var rest := ms[1..];
    if i :|
      && 0 <= i < |rest| && IsMapped(q, field, rest[i].key)
      && (id == rest[i].key || Names(q, rest[i].key, rest[i].value, id))
    {
      assert ms[i + 1] == rest[i];
    }
    if i :| 0 <= i < |ms| && IsMapped(q, field, ms[i].key) && (id == ms[i].key || Names(q, ms[i].key, ms[i].value, id))
    {
      if i > 0 { assert rest[i - 1] == ms[i]; }
    }
  }

  lemma {:induction false} MappedEntriesShow(q: Query, ms: seq<Member>, path: Text, field: Text, id: Text)
    ensures IsShown(q, Among(MappedEntries(q, ms, path, field)), id) <==> SomeMapped(q, ms, field, id)
  {
    hide KeyPath, IsMapped, Names, IsShown, SomeMapped, Among;
    if ms == [] {
      NothingMapped(q, path, field, id);
    } else {
      var m, rest := ms[0], MappedEntries(q, ms[1..], path, field);
      MappedEntriesShow(q, ms[1..], path, field, id);
      SomeMappedCons(q, ms, field, id);
      if IsMapped(q, field, m.key) {
        ShownSingle(q, Entry(path, m), id);
        IsShownUnion(q, Among([Entry(path, m)]), Among(rest), id);
        AmongConcat([Entry(path, m)], rest);
      } else {
        assert [] + rest == rest;
      }
    }
  }

  lemma AmongConcat(a: seq<Selection>, b: seq<Selection>)
    ensures Among(a + b) == Among(a) + Among(b)
  {
  }

  lemma NothingMapped(q: Query, path: Text, field: Text, id: Text)
    ensures !IsShown(q, Among(MappedEntries(q, [], path, field)), id) && !SomeMapped(q, [], field, id)
  {
  }

  lemma RecordShows(q: Query, node: Node, id: Text)
    requires node.value.Obj?
    ensures IsShown(q, Among(VisitNode(q, node).selected), id) <==>
      if MemberMatches(q, node.value.members) != {} then id in MemberMatches(q, node.value.members)
      else SomeMapped(q, node.value.members, node.field, id)
  {
    hide MemberMatches, MappedEntries, MemberNodes, IsShown, SomeMapped, Among, Identifies;
    var ms := node.value.members;
    ShownSingle(q, Selection(node.path, node.value, node.field, false, MemberMatches(q, ms)), id);
    MembersIdentify(q, ms, id);
    MappedEntriesShow(q, ms, node.path, node.field, id);
  }

  // ---- From one node to the search ----

  ghost function Standing(q: Query, id: Text): (Json, Text) -> bool {
    (v: Json, field: Text) => Stands(q, v, field, id)
  }

  ghost function Displacing(q: Query, id: Text): (Json, Text) -> bool {
    (v: Json, field: Text) => IsDisplaced(q, v, field, id)
  }

  lemma OnlyContainers(q: Query, id: Text)
    ensures OnContainers(Standing(q, id)) && OnContainers(Displacing(q, id))
  {
  }

  lemma ArrayStands(q: Query, items: seq<Json>, field: Text, id: Text)
    ensures Stands(q, Arr(items), field, id) <==>
      if Rows(q, items) != [] then id in RowIds(q, items)
      else (q.rules.isIdentityField(field) && id in ScalarIds(q, items)) || SomeItem(items, 0, field, Standing(q, id))
    ensures IsDisplaced(q, Arr(items), field, id) <==>
      if Rows(q, items) != [] then q.rules.isIdentityField(field) && id in ScalarIds(q, items)
      else SomeItem(items, 0, field, Displacing(q, id))
  {
    hide Rows, RowIds, ScalarIds, Identifies, PointsTo, HasRow;
    RowsAre(q, items, id);
    PointersAre(q, items, id);
  }

  lemma RecordStands(q: Query, ms: seq<Member>, field: Text, id: Text)
    ensures Stands(q, Obj(ms), field, id) <==>
      if MemberMatches(q, ms) != {} then id in MemberMatches(q, ms)
      else SomeMapped(q, ms, field, id) || SomeMember(q, ms, field, Standing(q, id))
    ensures IsDisplaced(q, Obj(ms), field, id) <==>
      MemberMatches(q, ms) == {} && SomeMember(q, ms, field, Displacing(q, id))
  {
    hide MemberMatches, IsMapped, Names, Identifies, IsRow;
    RowIs(q, Obj(ms));
    MembersIdentify(q, ms, id);
  }

  lemma NoNode(holds: (Json, Text) -> bool)
    ensures !SomeNode([], holds)
  {
  }

  lemma NodeStands(q: Query, node: Node, id: Text)
    ensures Stands(q, node.value, node.field, id) <==>
      IsShown(q, Among(VisitNode(q, node).selected), id) || SomeNode(VisitNode(q, node).children, Standing(q, id))
    ensures IsDisplaced(q, node.value, node.field, id) <==>
      id in VisitNode(q, node).shadowed || SomeNode(VisitNode(q, node).children, Displacing(q, id))
  {
    hide Rows, RowIds, Scalars, ScalarIds, ItemNodes, MemberMatches, MappedEntries, MemberNodes, IsShown;
    hide SomeMapped, SomeMember, SomeItem, SomeNode, OnContainers, Stands, IsDisplaced, Standing, Displacing;
    OnlyContainers(q, id);
    NoNode(Standing(q, id));
    NoNode(Displacing(q, id));
    match node.value
    case Arr(items) =>
      ArrayShows(q, node, id);
      ArrayStands(q, items, node.field, id);
      ItemNodesHave(items, 0, node.path, node.field, Standing(q, id));
      ItemNodesHave(items, 0, node.path, node.field, Displacing(q, id));
    case Obj(ms) =>
      RecordShows(q, node, id);
      RecordStands(q, ms, node.field, id);
      MemberNodesHave(q, ms, node.path, node.field, Standing(q, id));
      MemberNodesHave(q, ms, node.path, node.field, Displacing(q, id));
    case _ => ScalarStands(q, node, id);
  }

  lemma ScalarStands(q: Query, node: Node, id: Text)
    requires !IsContainer(node.value)
    ensures !Stands(q, node.value, node.field, id) && !IsDisplaced(q, node.value, node.field, id)
      && !IsShown(q, Among([]), id)
  {
  }

  /** The search shows an identity exactly where the payload keeps it, and counts one as displaced exactly where the
      payload displaces it. */
  lemma {:induction false} SearchStands(q: Query, nodes: seq<Node>, id: Text)
    ensures IsShown(q, Search(q, nodes).selected, id) <==> SomeNode(nodes, Standing(q, id))
    ensures id in Search(q, nodes).shadowed <==> SomeNode(nodes, Displacing(q, id))
    decreases Weight(nodes)
  {
    hide VisitNode, IsShown, SomeNode, Stands, IsDisplaced;
    if nodes == [] {
      NoNode(Standing(q, id));
      NoNode(Displacing(q, id));
      ShownSingle(q, Selection([], Null, [], false, {}), id);
      assert Among([]) == {};
    } else {
      var node, visit := nodes[0], VisitNode(q, nodes[0]);
      ChildrenWeight(q, node);
      SearchStands(q, visit.children, id);
      SearchStands(q, nodes[1..], id);
      NodeStands(q, node, id);
      assert nodes == [node] + nodes[1..];
      SomeNodeCons(node, nodes[1..], Standing(q, id));
      SomeNodeCons(node, nodes[1..], Displacing(q, id));
      var below, beside := Search(q, visit.children).selected, Search(q, nodes[1..]).selected;
      IsShownUnion(q, Among(visit.selected), below, id);
      IsShownUnion(q, Among(visit.selected) + below, beside, id);
    }
  }

  /** The search shows an identity exactly where the payload keeps it, and counts it as matched without selecting it
      exactly where the payload displaces it. */
  lemma PayloadStands(q: Query, payload: Json, id: Text)
    ensures (exists x :: x in Places(q, payload) && Shows(q, x, id)) <==> Stands(q, payload, ROOT, id)
    ensures id in SearchPayload(q, payload).shadowed <==> IsDisplaced(q, payload, ROOT, id)
  {
    hide ROOT, Search, Places, Shows, Stands, IsDisplaced;
    var nodes := [Node(payload, ROOT, ROOT)];
    SearchStands(q, nodes, id);
    assert nodes == [nodes[0]] + [];
    SomeNodeCons(nodes[0], [], Standing(q, id));
    SomeNodeCons(nodes[0], [], Displacing(q, id));
    NoNode(Standing(q, id));
    NoNode(Displacing(q, id));
    PlacesAreFound(q, payload);
    AmongIs(Places(q, payload));
  }

  /** What a node counts as matched can be read off one of its own places. */
  lemma OwnShows(q: Query, node: Node, id: Text)
    requires id in Shown(Among(VisitNode(q, node).selected))
    ensures IsShown(q, Among(VisitNode(q, node).selected), id)
  {
    hide MemberMatches, MappedEntries, MemberNodes, ItemNodes, IsShown, SomeMapped, Rows, RowIds, Scalars, ScalarIds;
    var x :| x in VisitNode(q, node).selected && id in x.shown;
    match node.value
    case Arr(items) => ArrayShows(q, node, id);
    case Obj(ms) =>
      RecordShows(q, node, id);
      if MemberMatches(q, ms) == {} {
        MappedEntriesAre(q, ms, node.path, node.field, x);
        SomeMappedHas(q, ms, node.path, node.field, id, x);
      }
    case _ =>
  }

  lemma SomeMappedHas(q: Query, ms: seq<Member>, path: Text, field: Text, id: Text, x: Selection)
    requires id in x.shown && exists i :: 0 <= i < |ms| && IsMapped(q, field, ms[i].key) && x == Entry(path, ms[i])
    ensures SomeMapped(q, ms, field, id)
  {
  }

  lemma {:induction false} CountedIsShown(q: Query, nodes: seq<Node>, id: Text)
    requires id in Shown(Search(q, nodes).selected)
    ensures IsShown(q, Search(q, nodes).selected, id)
    decreases Weight(nodes)
  {
    hide VisitNode, IsShown;
    var visit := VisitNode(q, nodes[0]);
    ChildrenWeight(q, nodes[0]);
    var own, below, beside := Among(visit.selected), Search(q, visit.children).selected, Search(q, nodes[1..]).selected;
    IsShownUnion(q, own, below, id);
    IsShownUnion(q, own + below, beside, id);
    var x: Selection :| x in own + below + beside && id in x.shown;
    if x in own {
      OwnShows(q, nodes[0], id);
    } else if x in below {
      CountedIsShown(q, visit.children, id);
    } else {
      CountedIsShown(q, nodes[1..], id);
    }
  }

  /** An identity that the selection counts as matched is kept or displaced by some place of the payload. */
  lemma MatchedAreFound(q: Query, payload: Json, id: Text)
    requires id in Matched(SearchPayload(q, payload))
    ensures Stands(q, payload, ROOT, id) || IsDisplaced(q, payload, ROOT, id)
  {
    hide ROOT, Search, Shows, Stands, IsDisplaced, Places;
    PayloadStands(q, payload, id);
    if id !in SearchPayload(q, payload).shadowed {
      CountedIsShown(q, [Node(payload, ROOT, ROOT)], id);
      PlacesAreFound(q, payload);
      AmongIs(Places(q, payload));
    }
  }

  /** Exactly the identities that some place counts, or that the payload displaces, are matched. */
  lemma MatchedExactly(q: Query, payload: Json, id: Text)
    ensures id in Matched(SearchPayload(q, payload)) <==>
      (exists x :: x in Places(q, payload) && id in x.shown) || IsDisplaced(q, payload, ROOT, id)
  {
    hide ROOT, SearchPayload, Shows, Stands, IsDisplaced, Places;
    PayloadStands(q, payload, id);
    PlacesAreFound(q, payload);
    AmongIs(Places(q, payload));
  }

  /** The value carries the identity under an accepted field name, as a member of an identity array, or as a key of an
      identity map. */
  ghost predicate IsNamedAt(q: Query, node: Node, id: Text) {
    match node.value
    case Obj(ms) =>
      exists i ::
        && 0 <= i < |ms|
        && ((q.rules.isIdentityField(ms[i].key) && IsIdentityOf(q, ms[i].value, id))
            || (q.rules.isIdentityMapField(node.field) && ms[i].key == id))
    case Arr(items) =>
      q.rules.isIdentityField(node.field) && exists i :: 0 <= i < |items| && PointsTo(q, items[i], id)
    case _ => false
  }

  ghost predicate IsNamed(q: Query, payload: Json, id: Text) {
    id in q.targets && exists a: Address :: At(payload, a).Some? && IsNamedAt(q, At(payload, a).value, id)
  }

  lemma NamedBelow(q: Query, payload: Json, a: Address, i: nat, id: Text)
    requires At(payload, a).Some? && StepDown(At(payload, a).value, i).Some?
    requires Identifies(q, StepDown(At(payload, a).value, i).value.value, id)
    ensures IsNamed(q, payload, id)
  {
    hide IsIdentityOf, StepDown;
    assert (a + [i])[..|a|] == a && (a + [i])[|a|] == i;
    assert At(payload, a + [i]) == StepDown(At(payload, a).value, i);
    assert IsNamedAt(q, At(payload, a + [i]).value, id);
  }

  /** A value that names an identity stands in a payload at an address that carries it. */
  lemma ValueIsNamed(q: Query, payload: Json, a: Address, id: Text)
    requires At(payload, a).Some? && Names(q, At(payload, a).value.field, At(payload, a).value.value, id)
    ensures IsNamed(q, payload, id)
  {
    hide IsIdentityOf, At, PointsTo;
    var node := At(payload, a).value;
    if Identifies(q, node.value, id) {
      assert IsNamedAt(q, node, id);
    } else {
      var i :| 0 <= i < |node.value.items| && (Identifies(q, node.value.items[i], id)
        || (q.rules.isIdentityField(node.field) && PointsTo(q, node.value.items[i], id)));
      if Identifies(q, node.value.items[i], id) {
        NamedBelow(q, payload, a, i, id);
      } else {
        PointsIs(q, node.value.items[i], id);
        assert IsNamedAt(q, node, id);
      }
    }
  }

  lemma ArrayPlaceIsNamed(q: Query, payload: Json, a: Address, x: Selection, id: Text, passes: Json -> bool)
    requires At(payload, a).Some? && At(payload, a).value.value.Arr?
    requires IsArrayPlace(x, At(payload, a).value, At(payload, a).value.value.items, passes) && Shows(q, x, id)
    ensures IsNamed(q, payload, id)
  {
    hide Identifies, At, PointsTo, IsNamed, Filter;
    var node := At(payload, a).value;
    var items := node.value.items;
    FilterMembers(items, passes);
    NotIdentified(q, Arr(Filter(items, passes)), id);
    var i :| 0 <= i < |x.value.items| && (Identifies(q, x.value.items[i], id)
      || (q.rules.isIdentityField(x.field) && PointsTo(q, x.value.items[i], id)));
    assert x.value.items[i] in Filter(items, passes);
    var j :| 0 <= j < |items| && items[j] == x.value.items[i];
    ValueIsNamed(q, payload, a, id);
  }

  lemma NotIdentified(q: Query, v: Json, id: Text)
    requires v.Arr?
    ensures !Identifies(q, v, id)
  {
  }

  lemma EntryIsNamed(q: Query, payload: Json, a: Address, x: Selection, id: Text)
    requires At(payload, a).Some? && At(payload, a).value.value.Obj? && Shows(q, x, id)
    requires IsEntryPlace(q, x, At(payload, a).value, At(payload, a).value.value.members)
    ensures IsNamed(q, payload, id)
  {
    hide Identifies, PointsTo, IsIdentityOf;
    var node := At(payload, a).value;
    var ms := node.value.members;
    var i :| 0 <= i < |ms| && IsMapMember(q, node, ms[i])
      && x == Selection(node.path + [DOT] + ms[i].key, ms[i].value, ms[i].key, true, {ms[i].key});
    if Names(q, x.field, x.value, id) {
      assert (a + [i])[..|a|] == a && (a + [i])[|a|] == i;
      assert At(payload, a + [i]) == StepDown(node, i);
      hide At, IsNamed, Names;
      ValueIsNamed(q, payload, a + [i], id);
    } else {
      assert IsNamedAt(q, node, id);
    }
  }

  /** Every identity that a returned selection witnesses is requested and stands in the payload under an accepted field
      name, in an identity array, or as a key of an identity map. */
  lemma WitnessesAreNamed(q: Query, payload: Json, m: map<Text, Json>, id: Text)
    requires IsWitnessed(q, payload, m, id)
    ensures IsNamed(q, payload, id)
  {
    hide At, Shows, IsVisited, IsNamed, Places, IsArrayPlace, IsEntryPlace, HasRow, HasPointer, IsRow, Identifies;
    hide PointsTo, RowTest, PointerTest;
    var x :| x in Places(q, payload) && Shows(q, x, id) && x.path in m && m[x.path] == x.value;
    PlacesExactly(q, payload, x);
    var a: Address :| IsVisited(q, payload, a) && At(payload, a).Some? && Contributes(q, At(payload, a).value, x);
    var node := At(payload, a).value;
    match node.value
    case Arr(items) =>
      ArrayPlaceIsNamed(q, payload, a, x, id, if HasRow(q, items) then RowTest(q) else PointerTest(q));
    case Obj(ms) =>
      if IsRow(q, node.value) { PlaceItself(q, x, node, id); ValueIsNamed(q, payload, a, id); } else {
        EntryIsNamed(q, payload, a, x, id);
      }
  }

  lemma PlaceItself(q: Query, x: Selection, node: Node, id: Text)
    requires Shows(q, x, id) && x.value == node.value && x.field == node.field && !x.isEntry
    ensures Names(q, node.field, node.value, id)
  {
  }

  /** An identity is witnessed if and only if the payload keeps it and not every place that does is overwritten. */
  lemma WitnessedIfKept(q: Query, payload: Json, id: Text)
    ensures IsWitnessed(q, payload, Written(map[], Places(q, payload)), id) <==>
      Stands(q, payload, ROOT, id) && !IsOverwritten(q, payload, id)
  {
    hide ROOT, SearchPayload, Shows, Stands, IsDisplaced, Places, IsKept;
    SelectionIsExact(q, payload);
    PlacesAreFound(q, payload);
    AmongIs(Places(q, payload));
    PayloadStands(q, payload, id);
  }

  /** For any payload: a selection that succeeds witnesses every requested identity if and only if each one that the
      payload displaces is also kept somewhere, and of each one that it keeps some place is not overwritten. */
  lemma WitnessedExactly(q: Query, payload: Json)
    requires q.targets <= Matched(SearchPayload(q, payload))
    ensures AllWitnessed(q, payload, Written(map[], Places(q, payload))) <==>
      forall id :: id in q.targets ==>
        && (IsDisplaced(q, payload, ROOT, id) ==> Stands(q, payload, ROOT, id))
        && (Stands(q, payload, ROOT, id) ==> !IsOverwritten(q, payload, id))
  {
    hide ROOT, SearchPayload, Stands, IsDisplaced, Places, IsOverwritten, IsWitnessed, Written;
    forall id | id in q.targets
      ensures IsWitnessed(q, payload, Written(map[], Places(q, payload)), id) <==>
        (IsDisplaced(q, payload, ROOT, id) ==> Stands(q, payload, ROOT, id)) &&
        (Stands(q, payload, ROOT, id) ==> !IsOverwritten(q, payload, id))
    {
      WitnessedIfKept(q, payload, id);
      MatchedAreFound(q, payload, id);
    }
  }

  /** Where no two places write different values to one path, displacement is the only cause. */
  lemma UnambiguousLosesNone(q: Query, payload: Json, id: Text)
    requires IsUnambiguous(Places(q, payload)) && Stands(q, payload, ROOT, id)
    ensures !IsOverwritten(q, payload, id)
  {
    hide ROOT, Shows, Stands, Places, IsKept, IsUnambiguous, IsDisplaced;
    PayloadStands(q, payload, id);
    var x :| x in Places(q, payload) && Shows(q, x, id);
    UnambiguousKeepsAll(q, payload, x);
  }

  // ---- Without mixed arrays ----

  /** No identity array holds both matching scalars and matching records. */
  ghost predicate HasNoMixedArrays(q: Query, v: Json, field: Text) {
    match v
    case Arr(items) =>
      && !(q.rules.isIdentityField(field) && HasPointer(q, items) && HasRow(q, items))
      && forall i :: 0 <= i < |items| ==> HasNoMixedArrays(q, items[i], field)
    case Obj(ms) => forall i :: 0 <= i < |ms| ==> HasNoMixedArrays(q, ms[i].value, ms[i].key)
    case _ => true
  }

  lemma {:induction false} NoneMixedNoneDisplaced(q: Query, v: Json, field: Text, id: Text)
    requires HasNoMixedArrays(q, v, field)
    ensures !IsDisplaced(q, v, field, id)
  {
    hide PointsTo, HasRow, IsRow, IsMapped;
    match v
    case Arr(items) =>
      forall i | 0 <= i < |items|
        ensures !IsDisplaced(q, items[i], field, id)
      {
        NoneMixedNoneDisplaced(q, items[i], field, id);
      }
    case Obj(ms) =>
      forall i | 0 <= i < |ms|
        ensures !IsDisplaced(q, ms[i].value, ms[i].key, id)
      {
        NoneMixedNoneDisplaced(q, ms[i].value, ms[i].key, id);
      }
    case _ =>
  }

  /** Without mixed arrays and without places that share a path, success means that every requested
      identity is witnessed. */
  lemma TargetsAreWitnessed(q: Query, payload: Json)
    requires HasNoMixedArrays(q, payload, ROOT) && IsUnambiguous(Places(q, payload))
    requires q.targets <= Matched(SearchPayload(q, payload))
    ensures AllWitnessed(q, payload, Written(map[], Places(q, payload)))
  {
    hide SearchPayload, HasNoMixedArrays, ROOT, AllWitnessed, IsDisplaced, Stands, IsOverwritten, IsUnambiguous, Places;
    hide Written;
    WitnessedExactly(q, payload);
    forall id | id in q.targets
      ensures !IsDisplaced(q, payload, ROOT, id) && (Stands(q, payload, ROOT, id) ==> !IsOverwritten(q, payload, id))
    {
      NoneMixedNoneDisplaced(q, payload, ROOT, id);
      if Stands(q, payload, ROOT, id) { UnambiguousLosesNone(q, payload, id); }
    }
  }

  // ---- A mixed array loses a target ----

  /** { field: [member, { key: row }] } */
  function MixedPayload(field: Text, member: Text, key: Text, row: Text): Json {
    Obj([Member(field, Arr([Str(member), Obj([Member(key, Str(row))])]))])
  }

  /** Rules that take these names for identity fields and these texts for identities. */
  predicate Accepts(rules: Rules, field: Text, member: Text, key: Text, row: Text) {
    && rules.isIdentityField(field) && rules.isIdentityField(key) && !rules.isIdentityMapField(ROOT)
    && rules.textIdentity(member) == Some(member) && rules.textIdentity(row) == Some(row)
  }

  lemma MixedItems(q: Query, member: Text, key: Text, row: Text)
    requires q.targets == {member, row} && member != row && q.rules.isIdentityField(key)
    requires q.rules.textIdentity(member) == Some(member) && q.rules.textIdentity(row) == Some(row)
    ensures var items := [Str(member), Obj([Member(key, Str(row))])];
      ScalarIds(q, items) == {member} && RowIds(q, items) == {row} && Rows(q, items) == [items[1]]
  {
    var record := Obj([Member(key, Str(row))]);
    var items := [Str(member), record];
    assert items[1..] == [record] && [record][1..] == [] && record.members[1..] == [];
    assert MemberMatches(q, []) == {} && RecordMatches(q, record) == {row};
    assert RowIds(q, []) == {} && RowIds(q, [record]) == {row};
    assert Rows(q, []) == [] && Rows(q, [record]) == [record];
    assert ScalarIds(q, []) == {} && ScalarIds(q, [record]) == {};
  }

  /** On such a payload both identities are matched, and the member's is displaced and kept nowhere. */
  lemma MixedGuards(q: Query, field: Text, member: Text, key: Text, row: Text)
    requires q.targets == {member, row} && member != row && Accepts(q.rules, field, member, key, row)
    ensures var payload := MixedPayload(field, member, key, row);
      && IsDisplaced(q, payload, ROOT, member) && !Stands(q, payload, ROOT, member) && Stands(q, payload, ROOT, row)
  {
    hide ROOT;
    var items := [Str(member), Obj([Member(key, Str(row))])];
    var ms := [Member(field, Arr(items))];
    MixedItems(q, member, key, row);
    assert ms[1..] == [] && MemberMatches(q, []) == {} && MemberMatches(q, ms) == {};
    RowIs(q, Obj(ms));
    hide IsRow, HasRow, Identifies, PointsTo, Rows, RowIds, ScalarIds, Scalars, MemberMatches, Names;
    assert !IsMapped(q, ROOT, ms[0].key);
    ArrayStands(q, items, field, member);
    ArrayStands(q, items, field, row);
    assert forall i :: 0 <= i < |ms| ==> ms[i] == ms[0];
    assert IsDisplaced(q, ms[0].value, ms[0].key, member) && !Stands(q, ms[0].value, ms[0].key, member)
      && Stands(q, ms[0].value, ms[0].key, row);
  }

  lemma MixedMatched(q: Query, field: Text, member: Text, key: Text, row: Text)
    requires q.targets == {member, row} && member != row && Accepts(q.rules, field, member, key, row)
    ensures q.targets <= Matched(SearchPayload(q, MixedPayload(field, member, key, row)))
  {
    hide ROOT;
    var items := [Str(member), Obj([Member(key, Str(row))])];
    var payload := MixedPayload(field, member, key, row);
    MixedItems(q, member, key, row);
    var outer, inner := Node(payload, ROOT, ROOT), Node(Arr(items), KeyPath(ROOT, field), field);
    assert payload.members[1..] == [] && MemberMatches(q, []) == {} && MemberMatches(q, payload.members) == {};
    assert MemberNodes(q, [], ROOT, ROOT) == [];
    assert MemberNodes(q, payload.members, ROOT, ROOT) == [inner];
    assert VisitNode(q, outer).children == [inner];
    var x := Selection(inner.path, Arr(Rows(q, items)), field, false, {row});
    assert VisitNode(q, inner).selected == [x] && VisitNode(q, inner).shadowed == {member};
    assert x in Search(q, [inner]).selected && member in Search(q, [inner]).shadowed;
    assert x in SearchPayload(q, payload).selected && member in SearchPayload(q, payload).shadowed;
    assert row in Shown(SearchPayload(q, payload).selected);
  }

  /** For every rules that accept the names and identities, the selection succeeds on such a payload and
      loses the member. */
  lemma MixedArrayLosesTarget(q: Query, field: Text, member: Text, key: Text, row: Text)
    requires q.targets == {member, row} && member != row && Accepts(q.rules, field, member, key, row)
    ensures var payload := MixedPayload(field, member, key, row);
      q.targets <= Matched(SearchPayload(q, payload)) && !AllWitnessed(q, payload, Written(map[], Places(q, payload)))
  {
    hide ROOT, Search, AllWitnessed, Accepts, Stands, IsDisplaced, MixedPayload, Places, Written, IsOverwritten;
    MixedMatched(q, field, member, key, row);
    MixedGuards(q, field, member, key, row);
    WitnessedExactly(q, MixedPayload(field, member, key, row));
  }

  /** The program's own rules for names, and two identities that it takes as they are. */
  ghost predicate IsProgramQuery(q: Query, a: Text, b: Text) {
    && q.rules.isIdentityField == IdentityNames.IsIdentityField
      && q.rules.isIdentityMapField == IdentityNames.IsIdentityMapField
    && q.targets == {a, b} && a != b && q.rules.textIdentity(a) == Some(a) && q.rules.textIdentity(b) == Some(b)
  }

  /** The program's own names: {"element_ids": [a, {"element_id": b}]} with a and b requested. */
  lemma ElementIdsLoseTarget(q: Query, a: Text, b: Text)
    requires IsProgramQuery(q, a, b)
    ensures var payload := MixedPayload(IdentityNames.ELEMENT_IDS, a, IdentityNames.ELEMENT_ID, b);
      q.targets <= Matched(SearchPayload(q, payload)) && !AllWitnessed(q, payload, Written(map[], Places(q, payload)))
  {
    IdentityNames.ElementNamesAreIdentities();
    IdentityNames.PayloadIsNoMap();
    hide IdentityNames.ELEMENT_ID, IdentityNames.ELEMENT_IDS, Search, AllWitnessed, MixedPayload, Places, Written;
    hide IdentityNames.IsIdentityField, IdentityNames.IsIdentityMapField;
    MixedArrayLosesTarget(q, IdentityNames.ELEMENT_IDS, a, IdentityNames.ELEMENT_ID, b);
  }

  // ---- Two places that share a path lose a target ----

  function Row(key: Text, id: Text): Json { Obj([Member(key, Str(id))]) }

  /** { "outer.inner": { key: first }, outer: { inner: { key: second } } } */
  function SharedPayload(outer: Text, inner: Text, key: Text, first: Text, second: Text): Json {
    Obj([Member(KeyPath(outer, inner), Row(key, first)), Member(outer, Obj([Member(inner, Row(key, second))]))])
  }

  predicate AcceptsBoth(rules: Rules, outer: Text, key: Text, first: Text, second: Text) {
    && rules.isIdentityField(key) && !rules.isIdentityMapField(ROOT) && !rules.isIdentityMapField(outer)
    && rules.textIdentity(first) == Some(first) && rules.textIdentity(second) == Some(second)
  }

  lemma RowVisit(q: Query, path: Text, field: Text, key: Text, id: Text)
    requires id in q.targets && q.rules.isIdentityField(key) && q.rules.textIdentity(id) == Some(id)
    ensures VisitNode(q, Node(Row(key, id), path, field)) ==
      Visit([Selection(path, Row(key, id), field, false, {id})], {}, [])
  {
    var ms := [Member(key, Str(id))];
    assert ms[1..] == [] && MemberMatches(q, []) == {} && MemberMatches(q, ms) == {id};
  }

  lemma SharedVisits(q: Query, outer: Text, inner: Text, key: Text, first: Text, second: Text)
    requires q.targets == {first, second} && AcceptsBoth(q.rules, outer, key, first, second)
    ensures VisitNode(q, Node(SharedPayload(outer, inner, key, first, second), ROOT, ROOT)) ==
      Visit([], {}, [Node(Row(key, first), KeyPath(ROOT, KeyPath(outer, inner)), KeyPath(outer, inner)),
                     Node(Obj([Member(inner, Row(key, second))]), KeyPath(ROOT, outer), outer)])
    ensures VisitNode(q, Node(Obj([Member(inner, Row(key, second))]), KeyPath(ROOT, outer), outer)) ==
      Visit([], {}, [Node(Row(key, second), KeyPath(KeyPath(ROOT, outer), inner), inner)])
  {
    hide ROOT, KeyPath;
    var root, below := SharedPayload(outer, inner, key, first, second).members, [Member(inner, Row(key, second))];
    NoMember(q, ROOT, ROOT);
    NoMember(q, KeyPath(ROOT, outer), outer);
    assert root[1..] == [root[1]] && [root[1]][1..] == [] && below[1..] == [];
    assert MemberMatches(q, [root[1]]) == {} && MemberMatches(q, root) == {} && MemberMatches(q, below) == {};
    assert MappedEntries(q, [root[1]], ROOT, ROOT) == [] && MappedEntries(q, root, ROOT, ROOT) == [];
    assert MappedEntries(q, below, KeyPath(ROOT, outer), outer) == [];
    assert MemberNodes(q, [root[1]], ROOT, ROOT) == [Node(root[1].value, KeyPath(ROOT, outer), outer)];
  }

  lemma NoMember(q: Query, path: Text, field: Text)
    ensures MemberMatches(q, []) == {} && MappedEntries(q, [], path, field) == []
      && MemberNodes(q, [], path, field) == []
  {
  }

  /** The deeper record is written later, to the same path. */
  lemma SharedPlaces(q: Query, outer: Text, inner: Text, key: Text, first: Text, second: Text)
    requires q.targets == {first, second} && AcceptsBoth(q.rules, outer, key, first, second)
    ensures var path := KeyPath(KeyPath(ROOT, outer), inner);
      Places(q, SharedPayload(outer, inner, key, first, second)) ==
        [Selection(path, Row(key, first), KeyPath(outer, inner), false, {first}),
         Selection(path, Row(key, second), inner, false, {second})]
  {
    hide ROOT, VisitNode, SharedPayload, KeyPath;
    var root := Node(SharedPayload(outer, inner, key, first, second), ROOT, ROOT);
    var path, field := KeyPath(KeyPath(ROOT, outer), inner), KeyPath(outer, inner);
    SamePath(outer, inner);
    var upper := Node(Row(key, first), path, field);
    var lower := Node(Obj([Member(inner, Row(key, second))]), KeyPath(ROOT, outer), outer);
    var deep := Node(Row(key, second), path, inner);
    SharedVisits(q, outer, inner, key, first, second);
    RowVisit(q, path, field, key, first);
    RowVisit(q, path, inner, key, second);
    WalkIsLevelOrder(q, [root]);
    assert [root][1..] + VisitNode(q, root).children == [upper, lower];
    assert [upper, lower][1..] + [] == [lower] && [lower][1..] + [deep] == [deep] && [deep][1..] + [] == [];
    assert Walk(q, [deep]) == VisitNode(q, deep).selected;
    assert Walk(q, [lower]) == Walk(q, [deep]);
  }

  lemma SamePath(outer: Text, inner: Text)
    ensures KeyPath(ROOT, KeyPath(outer, inner)) == KeyPath(KeyPath(ROOT, outer), inner)
  {
  }

  /** For every rules that accept the key and the identities, the selection succeeds on such a payload and
      loses the first. */
  lemma SharedPathLosesTarget(q: Query, outer: Text, inner: Text, key: Text, first: Text, second: Text)
    requires q.targets == {first, second} && first != second && AcceptsBoth(q.rules, outer, key, first, second)
    ensures var payload := SharedPayload(outer, inner, key, first, second);
      && q.targets <= Matched(SearchPayload(q, payload)) && IsOverwritten(q, payload, first)
      && (forall id :: id in q.targets ==> !IsDisplaced(q, payload, ROOT, id))
      && !AllWitnessed(q, payload, Written(map[], Places(q, payload)))
  {
    hide ROOT, Search, Stands, IsDisplaced, Places, Written, SharedPayload, KeyPath;
    var payload, places := SharedPayload(outer, inner, key, first, second),
      Places(q, SharedPayload(outer, inner, key, first, second));
    SharedPlaces(q, outer, inner, key, first, second);
    PlacesAreFound(q, payload);
    AmongIs(places);
    assert first in places[0].shown && second in places[1].shown;
    assert places[0] in places && places[1] in places;
    SharedIsOverwritten(q, payload, key, first, second);
    forall id ensures !IsDisplaced(q, payload, ROOT, id) { SharedHasNoArrays(q, outer, inner, key, first, second, id); }
    WitnessedIfKept(q, payload, first);
  }

  lemma SharedIsOverwritten(q: Query, payload: Json, key: Text, first: Text, second: Text)
    requires var places := Places(q, payload);
      && |places| == 2 && places[0].path == places[1].path && !places[1].isEntry
      && places[0].value == Row(key, first) && places[1].value == Row(key, second)
    requires first != second && q.rules.textIdentity(second) == Some(second)
    ensures IsOverwritten(q, payload, first)
  {
    hide Places;
    var places := Places(q, payload);
    var ms := [Member(key, Str(second))];
    assert ms[1..] == [] && MemberMatches(q, []) == {};
    MembersIdentify(q, ms, first);
    assert first !in MemberMatches(q, ms);
    assert !Shows(q, places[1], first);
    assert !IsLast(places, 0);
  }

  lemma SharedHasNoArrays(q: Query, outer: Text, inner: Text, key: Text, first: Text, second: Text, id: Text)
    ensures !IsDisplaced(q, SharedPayload(outer, inner, key, first, second), ROOT, id)
  {
    var payload := SharedPayload(outer, inner, key, first, second);
    assert HasNoMixedArrays(q, Row(key, first), KeyPath(outer, inner)) && HasNoMixedArrays(q, Row(key, second), inner);
    assert HasNoMixedArrays(q, payload.members[1].value, outer);
    NoneMixedNoneDisplaced(q, payload, ROOT, id);
  }

  /** The program's own names: {"a.b": {"element_id": first}, "a": {"b": {"element_id": second}}}. */
  lemma DottedKeyLosesTarget(q: Query, first: Text, second: Text)
    requires IsProgramQuery(q, first, second)
    ensures var payload := SharedPayload([97], [98], IdentityNames.ELEMENT_ID, first, second);
      q.targets <= Matched(SearchPayload(q, payload)) && !AllWitnessed(q, payload, Written(map[], Places(q, payload)))
  {
    IdentityNames.ElementNamesAreIdentities();
    IdentityNames.PayloadIsNoMap();
    IdentityNames.ShortIsNoMap(97);
    hide IdentityNames.ELEMENT_ID, Search, AllWitnessed, SharedPayload, Places, Written;
    hide IdentityNames.IsIdentityField, IdentityNames.IsIdentityMapField;
    SharedPathLosesTarget(q, [97], [98], IdentityNames.ELEMENT_ID, first, second);
  }
}
