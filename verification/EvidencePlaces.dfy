/**
 Where a selection can come from, told from the payload alone: which values identify a target, which places of a payload
 are looked at, and what each of them contributes. Places are addressed by the positions walked down from the root.
 */
module EvidencePlaces {
  import opened Outcomes
  import opened Texts
  import opened Decimals
  import opened JsonNumbers
  import opened JsonText
  import opened Sorting
  import opened EvidenceSelection

  // ---- What identifies a target ----

  /** The scalar has this identity. */
  predicate IsIdentityOf(q: Query, v: Json, id: Text) {
    (v.Str? && q.rules.textIdentity(v.text) == Some(id)) || (v.Num? && q.rules.numberIdentity(v.number) == Some(id))
  }

  /** A record identifies a target by a scalar of that identity under an accepted field name. */
  predicate Identifies(q: Query, v: Json, id: Text) {
    && v.Obj? && id in q.targets
    && exists i ::
         0 <= i < |v.members| && q.rules.isIdentityField(v.members[i].key) && IsIdentityOf(q, v.members[i].value, id)
  }

  /** The first identity of an array's scalars, or a scalar's own, is this target. */
  ghost predicate PointsTo(q: Query, v: Json, id: Text) {
    && id in q.targets
    && if v.Arr? then
         exists i ::
           && 0 <= i < |v.items| && IsIdentityOf(q, v.items[i], id)
           && forall j, other :: 0 <= j < i ==> !IsIdentityOf(q, v.items[j], other)
       else IsIdentityOf(q, v, id)
  }

  ghost predicate IsRow(q: Query, v: Json) { exists id :: Identifies(q, v, id) }

  ghost predicate IsPointer(q: Query, v: Json) { exists id :: PointsTo(q, v, id) }

  ghost predicate HasRow(q: Query, items: seq<Json>) { exists i :: 0 <= i < |items| && IsRow(q, items[i]) }

  ghost predicate HasPointer(q: Query, items: seq<Json>) { exists i :: 0 <= i < |items| && IsPointer(q, items[i]) }

  lemma IdentityIs(q: Query, v: Json, id: Text)
    ensures IsIdentityOf(q, v, id) <==> ScalarIdentity(q, v) == Some(id)
  {
  }

  lemma {:induction false} MembersIdentify(q: Query, ms: seq<Member>, id: Text)
    ensures id in MemberMatches(q, ms) <==> Identifies(q, Obj(ms), id)
  {
    if ms != [] {
      MembersIdentify(q, ms[1..], id);
      IdentityIs(q, ms[0].value, id);
      hide IsIdentityOf;
      var rest := ms[1..];
      if i :| 0 <= i < |rest| && q.rules.isIdentityField(rest[i].key) && IsIdentityOf(q, rest[i].value, id) {
        assert ms[i + 1] == rest[i];
      }
      if i :| 0 <= i < |ms| && q.rules.isIdentityField(ms[i].key) && IsIdentityOf(q, ms[i].value, id) {
        if i > 0 { assert rest[i - 1] == ms[i]; }
      }
    }
  }

  /** The matches of a record are the targets it identifies. */
  lemma RecordIdentifies(q: Query, v: Json, id: Text)
    ensures id in RecordMatches(q, v) <==> Identifies(q, v, id)
  {
    if v.Obj? { MembersIdentify(q, v.members, id); }
  }

  lemma RowIs(q: Query, v: Json)
    ensures IsRow(q, v) <==> RecordMatches(q, v) != {}
  {
    hide Identifies, RecordMatches;
    if RecordMatches(q, v) != {} {
      var id :| id in RecordMatches(q, v);
      RecordIdentifies(q, v, id);
    }
    if id :| Identifies(q, v, id) { RecordIdentifies(q, v, id); }
  }

  lemma {:induction false} FirstIs(q: Query, items: seq<Json>, id: Text)
    ensures FirstOf(q, items) == Some(id) <==> exists i ::
      && 0 <= i < |items| && IsIdentityOf(q, items[i], id)
      && forall j, other :: 0 <= j < i ==> !IsIdentityOf(q, items[j], other)
  {
    if items != [] {
      var rest := items[1..];
      FirstIs(q, rest, id);
      forall other ensures IsIdentityOf(q, items[0], other) <==> ScalarIdentity(q, items[0]) == Some(other) {
        IdentityIs(q, items[0], other);
      }
      hide IsIdentityOf, ScalarIdentity;
      var own := ScalarIdentity(q, items[0]);
      if own.Some? {
        assert IsIdentityOf(q, items[0], own.value);
      } else {
        if i :|
          && 0 <= i < |rest| && IsIdentityOf(q, rest[i], id)
          && forall j, other :: 0 <= j < i ==> !IsIdentityOf(q, rest[j], other)
        {
          assert items[i + 1] == rest[i];
          forall j, other | 0 <= j < i + 1 ensures !IsIdentityOf(q, items[j], other) {
            if j > 0 { assert items[j] == rest[j - 1]; }
          }
        }
        if i :|
          && 0 <= i < |items| && IsIdentityOf(q, items[i], id)
          && forall j, other :: 0 <= j < i ==> !IsIdentityOf(q, items[j], other)
        {
          assert items[i] == rest[i - 1];
          forall j, other | 0 <= j < i - 1 ensures !IsIdentityOf(q, rest[j], other) { assert rest[j] == items[j + 1]; }
        }
      }
    }
  }

  lemma PointsIs(q: Query, v: Json, id: Text)
    ensures PointsTo(q, v, id) <==> FirstIdentity(q, v) == Some(id) && id in q.targets
  {
    hide IsIdentityOf;
    if v.Arr? { FirstIs(q, v.items, id); } else { IdentityIs(q, v, id); }
  }

  lemma PointerIs(q: Query, v: Json)
    ensures IsPointer(q, v) <==> IsTarget(q, FirstIdentity(q, v))
  {
    hide PointsTo, FirstIdentity;
    if IsTarget(q, FirstIdentity(q, v)) { PointsIs(q, v, FirstIdentity(q, v).value); }
    if id :| PointsTo(q, v, id) { PointsIs(q, v, id); }
  }

  // ---- Rows and members of an array ----

  lemma {:induction false} RowsAre(q: Query, items: seq<Json>, id: Text)
    ensures id in RowIds(q, items) <==> exists i :: 0 <= i < |items| && Identifies(q, items[i], id)
    ensures Rows(q, items) != [] <==> HasRow(q, items)
  {
    hide Identifies, IsRow, RecordMatches;
    if items != [] {
      var rest := items[1..];
      RowsAre(q, rest, id);
      RecordIdentifies(q, items[0], id);
      RowIs(q, items[0]);
      if i :| 0 <= i < |rest| && Identifies(q, rest[i], id) { assert items[i + 1] == rest[i]; }
      if i :| 0 <= i < |items| && Identifies(q, items[i], id) {
        if i > 0 { assert rest[i - 1] == items[i]; }
      }
      if i :| 0 <= i < |rest| && IsRow(q, rest[i]) { assert items[i + 1] == rest[i]; }
      if i :| 0 <= i < |items| && IsRow(q, items[i]) {
        if i > 0 { assert rest[i - 1] == items[i]; }
      }
    }
  }

  lemma {:induction false} PointersAre(q: Query, items: seq<Json>, id: Text)
    ensures id in ScalarIds(q, items) <==> exists i :: 0 <= i < |items| && PointsTo(q, items[i], id)
    ensures Scalars(q, items) != [] <==> HasPointer(q, items)
  {
    hide PointsTo, IsPointer, FirstIdentity;
    if items != [] {
      var rest := items[1..];
      PointersAre(q, rest, id);
      PointsIs(q, items[0], id);
      PointerIs(q, items[0]);
      if i :| 0 <= i < |rest| && PointsTo(q, rest[i], id) { assert items[i + 1] == rest[i]; }
      if i :| 0 <= i < |items| && PointsTo(q, items[i], id) {
        if i > 0 { assert rest[i - 1] == items[i]; }
      }
      if i :| 0 <= i < |rest| && IsPointer(q, rest[i]) { assert items[i + 1] == rest[i]; }
      if i :| 0 <= i < |items| && IsPointer(q, items[i]) {
        if i > 0 { assert rest[i - 1] == items[i]; }
      }
    }
  }

  ghost function RowTest(q: Query): Json -> bool { (v: Json) => IsRow(q, v) }

  ghost function PointerTest(q: Query): Json -> bool { (v: Json) => IsPointer(q, v) }

  lemma {:induction false} RowsArePicked(q: Query, items: seq<Json>)
    ensures Rows(q, items) == Filter(items, RowTest(q))
  {
    hide IsRow, RecordMatches;
    if items != [] {
      RowsArePicked(q, items[1..]);
      RowIs(q, items[0]);
    }
  }

  lemma {:induction false} ScalarsArePicked(q: Query, items: seq<Json>)
    ensures Scalars(q, items) == Filter(items, PointerTest(q))
  {
    hide IsPointer, IsTarget, FirstIdentity;
    if items != [] {
      ScalarsArePicked(q, items[1..]);
      PointerIs(q, items[0]);
    }
  }

  // ---- Addresses ----

  /** The positions walked down from the root: indices of array items and of record members. */
  type Address = seq<nat>

  /** One step down, with the path as it is rendered and the field the value came from. */
  function StepDown(node: Node, i: nat): Option<Node> {
    match node.value
    case Arr(items) =>
      if i >= |items| then None
      else Some(Node(items[i], node.path + [OPEN_BRACKET] + Decimal(i) + [CLOSE_BRACKET], node.field))
    case Obj(ms) =>
      if i >= |ms| then None
      else Some(Node(ms[i].value, node.path + [DOT] + ms[i].key, ms[i].key))
    case _ => None
  }

  function At(payload: Json, a: Address): Option<Node> {
    if a == [] then Some(Node(payload, Lit("payload"), Lit("payload")))
    else
      var parent := At(payload, a[..|a| - 1]);
      if parent.None? then None else StepDown(parent.value, a[|a| - 1])
  }

  /** The search goes down to this item or member: nothing above it was selected in its stead, and it
      holds more values. */
  ghost predicate PassesDown(q: Query, node: Node, i: nat) {
    match node.value
    case Arr(items) => i < |items| && (items[i].Arr? || items[i].Obj?) && !HasRow(q, items)
    case Obj(ms) =>
      && i < |ms| && (ms[i].value.Arr? || ms[i].value.Obj?) && !IsRow(q, node.value)
      && !(ms[i].key in q.targets && q.rules.isIdentityMapField(node.field))
    case _ => false
  }

  ghost predicate IsVisited(q: Query, payload: Json, a: Address) {
    a == [] ||
    (var front := a[..|a| - 1];
     IsVisited(q, payload, front) && At(payload, front).Some? && PassesDown(q, At(payload, front).value, a[|a| - 1]))
  }

  lemma PassedIsThere(q: Query, node: Node, i: nat)
    requires PassesDown(q, node, i)
    ensures StepDown(node, i).Some?
  {
  }

  lemma VisitedIsThere(q: Query, payload: Json, a: Address)
    requires IsVisited(q, payload, a)
    ensures At(payload, a).Some?
  {
    hide PassesDown, StepDown;
    if a != [] { PassedIsThere(q, At(payload, a[..|a| - 1]).value, a[|a| - 1]); }
  }

  lemma {:induction false} VisitedPrefix(q: Query, payload: Json, a: Address, n: nat)
    requires IsVisited(q, payload, a) && n <= |a|
    ensures IsVisited(q, payload, a[..n])
    decreases |a|
  {
    hide PassesDown;
    if n < |a| {
      VisitedPrefix(q, payload, a[..|a| - 1], n);
      assert a[..|a| - 1][..n] == a[..n];
    } else {
      assert a[..n] == a;
    }
  }

  ghost predicate IsLeftOf(a: Address, b: Address) {
    exists k :: 0 <= k < |a| && k < |b| && a[..k] == b[..k] && a[k] < b[k]
  }

  /** Shallower places come first, and on one level those further left. */
  ghost predicate ComesBefore(a: Address, b: Address) { |a| < |b| || (|a| == |b| && IsLeftOf(a, b)) }

  lemma LeftExtends(a: Address, b: Address, i: nat, j: nat)
    requires IsLeftOf(a, b)
    ensures IsLeftOf(a + [i], b + [j])
  {
    var k :| 0 <= k < |a| && k < |b| && a[..k] == b[..k] && a[k] < b[k];
    assert (a + [i])[..k] == a[..k] && (b + [j])[..k] == b[..k];
    assert (a + [i])[k] == a[k] && (b + [j])[k] == b[k];
  }

  lemma LeftSibling(a: Address, i: nat, j: nat)
    requires i < j
    ensures IsLeftOf(a + [i], a + [j])
  {
    var n := |a|;
    assert (a + [i])[..n] == a && (a + [j])[..n] == a && (a + [i])[n] == i && (a + [j])[n] == j;
  }

  // ---- The children of a node ----

  ghost predicate AreChildren(q: Query, node: Node, children: seq<Node>, at: seq<nat>) {
    && |at| == |children| && (forall k, l :: 0 <= k < l < |at| ==> at[k] < at[l])
    && (forall k :: 0 <= k < |at| ==> PassesDown(q, node, at[k]) && StepDown(node, at[k]) == Some(children[k]))
    && forall i: nat :: PassesDown(q, node, i) ==> i in at
  }

  /** The containers among the items from an index on. */
  ghost predicate AreItems(items: seq<Json>, from: nat, path: Text, field: Text, children: seq<Node>, at: seq<nat>) {
    && |at| == |children| && (forall k, l :: 0 <= k < l < |at| ==> at[k] < at[l])
    && (forall k :: 0 <= k < |at| ==>
          && from <= at[k] < |items| && IsContainer(items[at[k]])
          && children[k] == Node(items[at[k]], IndexPath(path, at[k]), field))
    && forall i: nat :: from <= i < |items| && IsContainer(items[i]) ==> i in at
  }

  lemma {:induction false} ItemsAre(items: seq<Json>, from: nat, path: Text, field: Text) returns (at: seq<nat>)
    ensures AreItems(items, from, path, field, ItemNodes(items, from, path, field), at)
    decreases |items| - from
  {
    hide IndexPath, IsContainer, AreItems;
    if from >= |items| {
      at := [];
      NoItems(items, from, path, field);
    } else {
      var later := ItemsAre(items, from + 1, path, field);
      var rest := ItemNodes(items, from + 1, path, field);
      at := (if IsContainer(items[from]) then [from] else []) + later;
      if IsContainer(items[from]) {
        ItemsCons(items, from, path, field, rest, later);
      } else {
        ItemsSkip(items, from, path, field, rest, later);
        assert [] + later == later && [] + rest == rest;
      }
    }
  }

  lemma NoItems(items: seq<Json>, from: nat, path: Text, field: Text)
    requires from >= |items|
    ensures AreItems(items, from, path, field, [], [])
  {
  }

  lemma ItemsSkip(items: seq<Json>, from: nat, path: Text, field: Text, rest: seq<Node>, later: seq<nat>)
    requires from < |items| && !IsContainer(items[from]) && AreItems(items, from + 1, path, field, rest, later)
    ensures AreItems(items, from, path, field, rest, later)
  {
    hide IndexPath, IsContainer;
    forall i: nat | from <= i < |items| && IsContainer(items[i]) ensures i in later { assert i >= from + 1; }
  }

  /** Putting a smaller index in front. */
  lemma Prepended(first: nat, later: seq<nat>)
    requires (forall k, l :: 0 <= k < l < |later| ==> later[k] < later[l]) && forall k :: 0 <= k < |later| ==>
      first < later[k]
    ensures var at := [first] + later;
      && (forall k, l :: 0 <= k < l < |at| ==> at[k] < at[l]) && at[0] == first
      && (forall k :: 1 <= k < |at| ==> at[k] == later[k - 1]) && first in at && forall i :: i in later ==> i in at
  {
    var at := [first] + later;
    forall k | 1 <= k < |at| ensures at[k] == later[k - 1] { }
    assert at[0] == first;
  }

  lemma ItemsCons(items: seq<Json>, from: nat, path: Text, field: Text, rest: seq<Node>, later: seq<nat>)
    requires from < |items| && IsContainer(items[from]) && AreItems(items, from + 1, path, field, rest, later)
    ensures AreItems(items, from, path, field, [Node(items[from], IndexPath(path, from), field)] + rest, [from] + later)
  {
    hide IndexPath, IsContainer;
    var at, children := [from] + later, [Node(items[from], IndexPath(path, from), field)] + rest;
    Prepended(from, later);
    forall k | 1 <= k < |at| ensures children[k] == rest[k - 1] { }
    forall i: nat | from <= i < |items| && IsContainer(items[i]) ensures i in at {
      if i > from { assert i in later; }
    }
  }

  ghost predicate AreMembers(q: Query, ms: seq<Member>, path: Text, field: Text, children: seq<Node>, at: seq<nat>) {
    && |at| == |children| && (forall k, l :: 0 <= k < l < |at| ==> at[k] < at[l])
    && (forall k :: 0 <= k < |at| ==>
          && at[k] < |ms| && IsContainer(ms[at[k]].value) && !IsMapped(q, field, ms[at[k]].key)
          && children[k] == Node(ms[at[k]].value, KeyPath(path, ms[at[k]].key), ms[at[k]].key))
    && forall i: nat :: i < |ms| && IsContainer(ms[i].value) && !IsMapped(q, field, ms[i].key) ==> i in at
  }

  lemma {:induction false} MembersAre(q: Query, ms: seq<Member>, path: Text, field: Text) returns (at: seq<nat>)
    ensures AreMembers(q, ms, path, field, MemberNodes(q, ms, path, field), at)
  {
    hide KeyPath, IsContainer, IsMapped, AreMembers;
    if ms == [] {
      at := [];
      NoMembers(q, path, field);
    } else {
      var others := MembersAre(q, ms[1..], path, field);
      var later := seq(|others|, k requires 0 <= k < |others| => others[k] + 1);
      var passes := !IsMapped(q, field, ms[0].key) && IsContainer(ms[0].value);
      var rest := MemberNodes(q, ms[1..], path, field);
      forall k | 0 <= k < |ms| - 1 ensures ms[1..][k] == ms[k + 1] { }
      MembersShift(q, ms, ms[1..], path, field, rest, others, later);
      if passes {
        at := [0] + later;
        MembersCons(q, ms, path, field, rest, later);
      } else {
        at := later;
        MembersSkip(q, ms, path, field, rest, later);
        assert [] + rest == rest;
      }
    }
  }

  lemma NoMembers(q: Query, path: Text, field: Text)
    ensures AreMembers(q, [], path, field, [], [])
  {
  }

  /** The containers among the members after the first. */
  ghost predicate AreLater(q: Query, ms: seq<Member>, path: Text, field: Text, children: seq<Node>, at: seq<nat>) {
    && |at| == |children| && (forall k, l :: 0 <= k < l < |at| ==> at[k] < at[l])
    && (forall k :: 0 <= k < |at| ==>
          && 0 < at[k] < |ms| && IsContainer(ms[at[k]].value) && !IsMapped(q, field, ms[at[k]].key)
          && children[k] == Node(ms[at[k]].value, KeyPath(path, ms[at[k]].key), ms[at[k]].key))
    && forall i: nat :: 0 < i < |ms| && IsContainer(ms[i].value) && !IsMapped(q, field, ms[i].key) ==> i in at
  }

  lemma MembersShift(q: Query, ms: seq<Member>, tail: seq<Member>, path: Text, field: Text, rest: seq<Node>,
      others: seq<nat>, later: seq<nat>)
    requires |ms| == |tail| + 1 && (forall k :: 0 <= k < |tail| ==> tail[k] == ms[k + 1])
    requires AreMembers(q, tail, path, field, rest, others)
    requires |later| == |others| && forall k :: 0 <= k < |later| ==> later[k] == others[k] + 1
    ensures AreLater(q, ms, path, field, rest, later)
  {
    hide KeyPath, IsContainer, IsMapped;
    forall k | 0 <= k < |later| ensures 0 < later[k] < |ms| && ms[later[k]] == tail[others[k]] { }
    ShiftedIncrease(others, later);
    forall i: nat | 0 < i < |ms| && IsContainer(ms[i].value) && !IsMapped(q, field, ms[i].key) ensures i in later {
      assert tail[i - 1] == ms[i];
      assert i - 1 in others;
    }
  }

  lemma ShiftedIncrease(others: seq<nat>, later: seq<nat>)
    requires forall k, l :: 0 <= k < l < |others| ==> others[k] < others[l]
    requires |later| == |others| && forall k :: 0 <= k < |later| ==> later[k] == others[k] + 1
    ensures forall k, l :: 0 <= k < l < |later| ==> later[k] < later[l]
    ensures forall i :: i in others ==> i + 1 in later
  {
    forall i | i in others ensures i + 1 in later {
      var k :| 0 <= k < |others| && others[k] == i;
      assert later[k] == i + 1;
    }
  }

  lemma MembersSkip(q: Query, ms: seq<Member>, path: Text, field: Text, rest: seq<Node>, later: seq<nat>)
    requires ms != [] && AreLater(q, ms, path, field, rest, later)
    requires IsMapped(q, field, ms[0].key) || !IsContainer(ms[0].value)
    ensures AreMembers(q, ms, path, field, rest, later)
  {
    hide KeyPath, IsContainer, IsMapped;
    forall i: nat | i < |ms| && IsContainer(ms[i].value) && !IsMapped(q, field, ms[i].key) ensures i in later {
      assert i > 0;
    }
  }

  lemma MembersCons(q: Query, ms: seq<Member>, path: Text, field: Text, rest: seq<Node>, later: seq<nat>)
    requires ms != [] && AreLater(q, ms, path, field, rest, later)
    requires !IsMapped(q, field, ms[0].key) && IsContainer(ms[0].value)
    ensures AreMembers(q, ms, path, field, [Node(ms[0].value, KeyPath(path, ms[0].key), ms[0].key)] + rest, [0] + later)
  {
    hide KeyPath, IsContainer, IsMapped;
    var at, children: seq<Node> := [0] + later, [Node(ms[0].value, KeyPath(path, ms[0].key), ms[0].key)] + rest;
    Prepended(0, later);
    forall k | 1 <= k < |at| ensures children[k] == rest[k - 1] { }
    forall i: nat | i < |ms| && IsContainer(ms[i].value) && !IsMapped(q, field, ms[i].key) ensures i in at {
      if i > 0 { assert i in later; }
    }
  }

  lemma ChildrenAre(q: Query, node: Node) returns (at: seq<nat>)
    ensures AreChildren(q, node, VisitNode(q, node).children, at)
  {
    hide IsRow, HasRow, Rows, RowIds, Scalars, ScalarIds, MemberMatches, MappedEntries, ItemNodes, MemberNodes;
    at := [];
    match node.value
    case Arr(items) =>
      RowsAre(q, items, []);
      if !HasRow(q, items) { at := ItemsAre(items, 0, node.path, node.field); }
    case Obj(ms) =>
      RowIs(q, node.value);
      if !IsRow(q, node.value) { at := MembersAre(q, ms, node.path, node.field); }
    case _ =>
  }

  // ---- Levels ----

  /** The nodes of a level with their addresses, from left to right. */
  ghost predicate AreAt(q: Query, payload: Json, nodes: seq<Node>, at: seq<Address>, depth: nat) {
    && |at| == |nodes|
    && (forall k :: 0 <= k < |at| ==>
      |at[k]| == depth && IsVisited(q, payload, at[k]) && At(payload, at[k]) == Some(nodes[k]))
    && forall k, l :: 0 <= k < l < |at| ==> IsLeftOf(at[k], at[l])
  }

  ghost predicate AreBelow(q: Query, payload: Json, above: seq<Address>, below: seq<Address>, depth: nat) {
    && (forall k :: 0 <= k < |below| ==> |below[k]| == depth + 1 && below[k][..depth] in above)
    && forall a: Address :: |a| == depth + 1 && IsVisited(q, payload, a) && a[..depth] in above ==> a in below
  }

  /** The addresses of the children of one node. */
  lemma OneBelow(q: Query, payload: Json, node: Node, a: Address) returns (at: seq<Address>)
    requires IsVisited(q, payload, a) && At(payload, a) == Some(node)
    ensures AreAt(q, payload, VisitNode(q, node).children, at, |a| + 1) && AreBelow(q, payload, [a], at, |a|)
  {
    hide VisitNode, PassesDown, StepDown, IsLeftOf, IsVisited, At;
    var steps := ChildrenAre(q, node);
    at := seq(|steps|, k requires 0 <= k < |steps| => a + [steps[k]]);
    forall k | 0 <= k < |at| ensures at[k][..|a|] == a && at[k][|a|] == steps[k] && |at[k]| == |a| + 1 { }
    forall k, l | 0 <= k < l < |at| ensures IsLeftOf(at[k], at[l]) { LeftSibling(a, steps[k], steps[l]); }
    forall k | 0 <= k < |at|
      ensures IsVisited(q, payload, at[k]) && At(payload, at[k]) == Some(VisitNode(q, node).children[k])
    {
      VisitedChild(q, payload, node, a, steps[k]);
    }
    AllBelow(q, payload, node, a, VisitNode(q, node).children, steps, at);
  }

  lemma AllBelow(q: Query, payload: Json, node: Node, a: Address, children: seq<Node>, steps: seq<nat>,
      at: seq<Address>)
    requires At(payload, a) == Some(node) && AreChildren(q, node, children, steps)
    requires |at| == |steps| && forall k :: 0 <= k < |at| ==> at[k] == a + [steps[k]]
    ensures AreBelow(q, payload, [a], at, |a|)
  {
    hide PassesDown, StepDown, IsVisited, At;
    forall k | 0 <= k < |at| ensures |at[k]| == |a| + 1 && at[k][..|a|] == a { }
    forall b: Address | |b| == |a| + 1 && IsVisited(q, payload, b) && b[..|a|] in [a] ensures b in at {
      assert b[..|a|] == a && b == a + [b[|a|]];
      VisitedParent(q, payload, node, a, b[|a|]);
      var k :| 0 <= k < |steps| && steps[k] == b[|a|];
      assert at[k] == b;
    }
  }

  lemma VisitedChild(q: Query, payload: Json, node: Node, a: Address, i: nat)
    requires IsVisited(q, payload, a) && At(payload, a) == Some(node) && PassesDown(q, node, i)
    ensures IsVisited(q, payload, a + [i]) && At(payload, a + [i]) == StepDown(node, i)
  {
    hide PassesDown, StepDown;
    assert (a + [i])[..|a|] == a && (a + [i])[|a|] == i;
  }

  lemma VisitedParent(q: Query, payload: Json, node: Node, a: Address, i: nat)
    requires At(payload, a) == Some(node) && IsVisited(q, payload, a + [i])
    ensures PassesDown(q, node, i)
  {
    hide PassesDown, StepDown;
    assert (a + [i])[..|a|] == a && (a + [i])[|a|] == i;
  }

  lemma {:induction false} LevelBelow(q: Query, payload: Json, nodes: seq<Node>, at: seq<Address>, depth: nat)
      returns (below: seq<Address>)
    requires AreAt(q, payload, nodes, at, depth)
    ensures AreAt(q, payload, Below(q, nodes), below, depth + 1) && AreBelow(q, payload, at, below, depth)
  {
    hide VisitNode, IsLeftOf, IsVisited, At, AreBelow;
    if nodes == [] {
      below := [];
      NothingBelow(q, payload, depth);
    } else {
      var own := OneBelow(q, payload, nodes[0], at[0]);
      LevelTail(q, payload, nodes, at, depth);
      var others := LevelBelow(q, payload, nodes[1..], at[1..], depth);
      below := own + others;
      LevelJoin(q, payload, nodes, at, own, others, depth);
    }
  }

  lemma NothingBelow(q: Query, payload: Json, depth: nat)
    ensures AreBelow(q, payload, [], [], depth)
  {
  }

  lemma LevelTail(q: Query, payload: Json, nodes: seq<Node>, at: seq<Address>, depth: nat)
    requires nodes != [] && AreAt(q, payload, nodes, at, depth)
    ensures AreAt(q, payload, nodes[1..], at[1..], depth)
    ensures |at[0]| == depth && IsVisited(q, payload, at[0]) && At(payload, at[0]) == Some(nodes[0])
  {
    hide IsLeftOf, IsVisited, At;
    forall k | 0 <= k < |at| - 1 ensures at[1..][k] == at[k + 1] && nodes[1..][k] == nodes[k + 1] { }
  }

  lemma LevelJoin(q: Query, payload: Json, nodes: seq<Node>, at: seq<Address>, own: seq<Address>, others: seq<Address>,
      depth: nat)
    requires nodes != [] && AreAt(q, payload, nodes, at, depth)
    requires AreAt(q, payload, VisitNode(q, nodes[0]).children, own, depth + 1)
    requires AreBelow(q, payload, [at[0]], own, depth)
    requires AreAt(q, payload, Below(q, nodes[1..]), others, depth + 1) && AreBelow(q, payload, at[1..], others, depth)
    ensures AreAt(q, payload, Below(q, nodes), own + others, depth + 1)
    ensures AreBelow(q, payload, at, own + others, depth)
  {
    hide VisitNode, IsLeftOf, IsVisited, At, AreBelow;
    var below, n := own + others, |own|;
    var above, beside := VisitNode(q, nodes[0]).children, Below(q, nodes[1..]);
    BelowJoin(q, payload, at, own, others, depth);
    forall k, l | 0 <= k < l < |below| ensures IsLeftOf(below[k], below[l]) {
      if k < n <= l {
        AcrossParents(q, payload, nodes, at, own, others, depth, k, l - n);
      } else if k < n {
        assert below[k] == own[k] && below[l] == own[l];
      } else {
        assert below[k] == others[k - n] && below[l] == others[l - n];
      }
    }
    forall k | 0 <= k < |below|
      ensures |below[k]| == depth + 1 && IsVisited(q, payload, below[k])
      ensures At(payload, below[k]) == Some((above + beside)[k])
    {
      if k < n { assert below[k] == own[k]; } else { assert below[k] == others[k - n]; }
    }
  }

  lemma AcrossParents(q: Query, payload: Json, nodes: seq<Node>, at: seq<Address>, own: seq<Address>,
      others: seq<Address>, depth: nat, k: nat, l: nat)
    requires nodes != [] && AreAt(q, payload, nodes, at, depth) && k < |own| && l < |others|
    requires AreBelow(q, payload, [at[0]], own, depth) && AreBelow(q, payload, at[1..], others, depth)
    ensures IsLeftOf(own[k], others[l])
  {
    hide IsLeftOf, IsVisited, At;
    var a, b := own[k], others[l];
    assert a[..depth] in [at[0]] && a == a[..depth] + [a[depth]];
    assert b[..depth] in at[1..] && b == b[..depth] + [b[depth]];
    var j :| 0 <= j < |at| - 1 && at[1..][j] == b[..depth];
    assert IsLeftOf(at[0], at[j + 1]);
    LeftExtends(a[..depth], b[..depth], a[depth], b[depth]);
  }

  lemma BelowJoin(q: Query, payload: Json, at: seq<Address>, own: seq<Address>, others: seq<Address>, depth: nat)
    requires at != [] && AreBelow(q, payload, [at[0]], own, depth) && AreBelow(q, payload, at[1..], others, depth)
    ensures AreBelow(q, payload, at, own + others, depth)
  {
    hide IsVisited;
    var below, n := own + others, |own|;
    assert at == [at[0]] + at[1..];
    forall k | 0 <= k < |below| ensures |below[k]| == depth + 1 && below[k][..depth] in at {
      if k < n { assert below[k] == own[k]; } else { assert below[k] == others[k - n]; }
    }
    forall a: Address | |a| == depth + 1 && IsVisited(q, payload, a) && a[..depth] in at ensures a in below {
      if a[..depth] in [at[0]] { assert a in own; } else { assert a in others; }
    }
  }

  // ---- The whole search ----

  /** The nodes a search looks at, level by level. */
  function NodeOrder(q: Query, nodes: seq<Node>): seq<Node>
    decreases Weight(nodes)
  {
    if nodes == [] then []
    else
      BelowWeight(q, nodes);
      nodes + NodeOrder(q, Below(q, nodes))
  }

  lemma {:induction false} OwnConcat(q: Query, a: seq<Node>, b: seq<Node>)
    ensures Own(q, a + b) == Own(q, a) + Own(q, b)
    decreases |a|
  {
    hide VisitNode;
    if a == [] {
      assert a + b == b;
    } else {
      assert (a + b)[1..] == a[1..] + b;
      OwnConcat(q, a[1..], b);
    }
  }

  lemma {:induction false} OrderOwns(q: Query, nodes: seq<Node>)
    ensures LevelOrder(q, nodes) == Own(q, NodeOrder(q, nodes))
    decreases Weight(nodes)
  {
    hide VisitNode, Own, Below;
    if nodes == [] {
      NothingOwned(q);
    } else {
      BelowWeight(q, nodes);
      OrderOwns(q, Below(q, nodes));
      OwnConcat(q, nodes, NodeOrder(q, Below(q, nodes)));
    }
  }

  lemma NothingOwned(q: Query)
    ensures Own(q, []) == []
  {
  }

  lemma {:induction false} VisitedLevel(q: Query, nodes: seq<Node>)
    ensures Search(q, nodes).visited == |nodes| + Search(q, Below(q, nodes)).visited
  {
    hide VisitNode;
    if nodes != [] {
      VisitedLevel(q, nodes[1..]);
      SearchConcat(q, VisitNode(q, nodes[0]).children, Below(q, nodes[1..]));
    }
  }

  lemma {:induction false} OrderCounts(q: Query, nodes: seq<Node>)
    ensures Search(q, nodes).visited == |NodeOrder(q, nodes)|
    decreases Weight(nodes)
  {
    hide VisitNode, Below;
    if nodes != [] {
      VisitedLevel(q, nodes);
      BelowWeight(q, nodes);
      OrderCounts(q, Below(q, nodes));
    }
  }

  ghost predicate AreInOrder(q: Query, payload: Json, nodes: seq<Node>, at: seq<Address>) {
    && |at| == |nodes|
    && (forall k :: 0 <= k < |at| ==> IsVisited(q, payload, at[k]) && At(payload, at[k]) == Some(nodes[k]))
    && forall k, l :: 0 <= k < l < |at| ==> ComesBefore(at[k], at[l])
  }

  lemma {:induction false} OrderFrom(q: Query, payload: Json, nodes: seq<Node>, at: seq<Address>, depth: nat)
      returns (all: seq<Address>)
    requires AreAt(q, payload, nodes, at, depth)
    requires forall a: Address :: |a| == depth && IsVisited(q, payload, a) ==> a in at
    ensures AreInOrder(q, payload, NodeOrder(q, nodes), all)
    ensures forall k :: 0 <= k < |all| ==> |all[k]| >= depth
    ensures forall a: Address :: |a| >= depth && IsVisited(q, payload, a) ==> a in all
    decreases Weight(nodes)
  {
    hide VisitNode, IsLeftOf, IsVisited, At, Below;
    if nodes == [] {
      all := [];
      NothingDeeper(q, payload, depth);
    } else {
      BelowWeight(q, nodes);
      var below := LevelBelow(q, payload, nodes, at, depth);
      forall a: Address | |a| == depth + 1 && IsVisited(q, payload, a) ensures a in below {
        VisitedPrefix(q, payload, a, depth);
      }
      var later := OrderFrom(q, payload, Below(q, nodes), below, depth + 1);
      all := at + later;
      OrderJoin(q, payload, nodes, NodeOrder(q, Below(q, nodes)), at, later, depth);
      forall a: Address | |a| >= depth && IsVisited(q, payload, a) ensures a in all {
        if |a| > depth { assert a in later; } else { assert a in at; }
      }
    }
  }

  lemma NothingDeeper(q: Query, payload: Json, depth: nat)
    requires forall a: Address :: |a| == depth ==> !IsVisited(q, payload, a)
    ensures forall a: Address :: |a| >= depth ==> !IsVisited(q, payload, a)
  {
    hide IsVisited;
    forall a: Address | |a| >= depth && IsVisited(q, payload, a) ensures false {
      VisitedPrefix(q, payload, a, depth);
      assert false;
    }
  }

  lemma OrderJoin(q: Query, payload: Json, nodes: seq<Node>, rest: seq<Node>, at: seq<Address>, later: seq<Address>,
      depth: nat)
    requires AreAt(q, payload, nodes, at, depth) && AreInOrder(q, payload, rest, later)
    requires forall k :: 0 <= k < |later| ==> |later[k]| >= depth + 1
    ensures AreInOrder(q, payload, nodes + rest, at + later)
    ensures forall k :: 0 <= k < |at + later| ==> |(at + later)[k]| >= depth
  {
    hide IsLeftOf, IsVisited, At;
    var all, n := at + later, |at|;
    forall k, l | 0 <= k < l < |all| ensures ComesBefore(all[k], all[l]) {
      if k >= n { assert all[k] == later[k - n] && all[l] == later[l - n]; }
    }
    forall k | 0 <= k < |all|
      ensures IsVisited(q, payload, all[k]) && At(payload, all[k]) == Some((nodes + rest)[k]) && |all[k]| >= depth
    {
      if k >= n { assert all[k] == later[k - n]; }
    }
  }

  /** The search looks at exactly the places that are not cut off, shallower ones first and each level from left to
      right, and writes what each contributes in that order. */
  lemma NodesExactly(q: Query, payload: Json) returns (at: seq<Address>)
    ensures var nodes := NodeOrder(q, [Node(payload, ROOT, ROOT)]);
      && AreInOrder(q, payload, nodes, at) && (forall a: Address :: IsVisited(q, payload, a) <==> a in at)
      && SearchPayload(q, payload).visited == |at| && Places(q, payload) == Own(q, nodes)
  {
    var root := [Node(payload, ROOT, ROOT)];
    var top: seq<Address> := [[]];
    assert AreAt(q, payload, root, top, 0);
    forall a: Address | |a| == 0 && IsVisited(q, payload, a) ensures a in top { assert a == top[0]; }
    hide IsVisited, At, ROOT, NodeOrder, LevelOrder, Search, Own, ComesBefore;
    at := OrderFrom(q, payload, root, top, 0);
    OrderOwns(q, root);
    OrderCounts(q, root);
    forall a: Address ensures IsVisited(q, payload, a) <==> a in at {
      if a in at {
        var k :| 0 <= k < |at| && at[k] == a;
      }
    }
  }

  // ---- What a place contributes ----

  /** The items of an array that pass a test, all under the array's own path. */
  ghost predicate IsArrayPlace(x: Selection, node: Node, items: seq<Json>, passes: Json -> bool) {
    x.path == node.path && x.value == Arr(Filter(items, passes)) && x.field == node.field && !x.isEntry
  }

  ghost predicate IsMapMember(q: Query, node: Node, m: Member) {
    m.key in q.targets && q.rules.isIdentityMapField(node.field)
  }

  /** The entries of an identity map that are keyed by a target. */
  ghost predicate IsEntryPlace(q: Query, x: Selection, node: Node, ms: seq<Member>) {
    exists i :: 0 <= i < |ms| && IsMapMember(q, node, ms[i])
      && x == Selection(node.path + [DOT] + ms[i].key, ms[i].value, ms[i].key, true, {ms[i].key})
  }

  ghost predicate Contributes(q: Query, node: Node, x: Selection) {
    match node.value
    case Arr(items) =>
      if HasRow(q, items) then
        && IsArrayPlace(x, node, items, RowTest(q))
        && forall id :: id in x.shown <==> exists i :: 0 <= i < |items| && Identifies(q, items[i], id)
      else
        && q.rules.isIdentityField(node.field) && HasPointer(q, items) && IsArrayPlace(x, node, items, PointerTest(q))
        && forall id :: id in x.shown <==> exists i :: 0 <= i < |items| && PointsTo(q, items[i], id)
    case Obj(ms) =>
      if IsRow(q, node.value) then
        && x.path == node.path && x.value == node.value && x.field == node.field && !x.isEntry
        && forall id :: id in x.shown <==> Identifies(q, node.value, id)
      else IsEntryPlace(q, x, node, ms)
    case _ => false
  }

  lemma {:induction false} EntriesAre(q: Query, ms: seq<Member>, node: Node, x: Selection)
    ensures x in MappedEntries(q, ms, node.path, node.field) <==> IsEntryPlace(q, x, node, ms)
  {
    if ms != [] {
      var rest := ms[1..];
      EntriesAre(q, rest, node, x);
      hide KeyPath;
      assert KeyPath(node.path, ms[0].key) == node.path + [DOT] + ms[0].key by { PathIs(node.path, ms[0].key); }
      hide IsMapMember;
      assert IsMapped(q, node.field, ms[0].key) == IsMapMember(q, node, ms[0]) by { MapMemberIs(q, node, ms[0]); }
      if i :|
        && 0 <= i < |rest| && IsMapMember(q, node, rest[i])
        && x == Selection(node.path + [DOT] + rest[i].key, rest[i].value, rest[i].key, true, {rest[i].key})
      {
        assert ms[i + 1] == rest[i];
      }
      if i :|
        && 0 <= i < |ms| && IsMapMember(q, node, ms[i])
        && x == Selection(node.path + [DOT] + ms[i].key, ms[i].value, ms[i].key, true, {ms[i].key})
      {
        if i > 0 { assert rest[i - 1] == ms[i]; }
      }
    }
  }

  lemma PathIs(path: Text, key: Text)
    ensures KeyPath(path, key) == path + [DOT] + key
  {
  }

  lemma MapMemberIs(q: Query, node: Node, m: Member)
    ensures IsMapped(q, node.field, m.key) <==> IsMapMember(q, node, m)
  {
  }

  lemma ArrayContributes(q: Query, node: Node, x: Selection)
    requires node.value.Arr?
    ensures x in VisitNode(q, node).selected <==> Contributes(q, node, x)
  {
    hide HasRow, HasPointer, Identifies, PointsTo, Rows, RowIds, Scalars, ScalarIds, ItemNodes, Filter, RowTest;
    hide PointerTest;
    var items := node.value.items;
    RowsArePicked(q, items);
    ScalarsArePicked(q, items);
    RowsAre(q, items, []);
    PointersAre(q, items, []);
    forall id ensures id in RowIds(q, items) <==> exists i :: 0 <= i < |items| && Identifies(q, items[i], id) {
      RowsAre(q, items, id);
    }
    forall id ensures id in ScalarIds(q, items) <==> exists i :: 0 <= i < |items| && PointsTo(q, items[i], id) {
      PointersAre(q, items, id);
    }
    if Contributes(q, node, x) {
      if HasRow(q, items) { assert x.shown == RowIds(q, items); } else { assert x.shown == ScalarIds(q, items); }
    }
  }

  lemma RecordContributes(q: Query, node: Node, x: Selection)
    requires node.value.Obj?
    ensures x in VisitNode(q, node).selected <==> Contributes(q, node, x)
  {
    hide IsRow, Identifies, MemberMatches, MappedEntries, MemberNodes, IsEntryPlace;
    var ms := node.value.members;
    RowIs(q, node.value);
    forall id ensures id in MemberMatches(q, ms) <==> Identifies(q, node.value, id) { MembersIdentify(q, ms, id); }
    EntriesAre(q, ms, node, x);
    if Contributes(q, node, x) && IsRow(q, node.value) { assert x.shown == MemberMatches(q, ms); }
  }

  lemma ContributionsAre(q: Query, node: Node, x: Selection)
    ensures x in VisitNode(q, node).selected <==> Contributes(q, node, x)
  {
    match node.value
    case Arr(items) => ArrayContributes(q, node, x);
    case Obj(ms) => RecordContributes(q, node, x);
    case _ =>
  }

  lemma {:induction false} OwnIs(q: Query, nodes: seq<Node>, x: Selection)
    ensures x in Own(q, nodes) <==> exists k :: 0 <= k < |nodes| && Contributes(q, nodes[k], x)
  {
    hide VisitNode, Contributes;
    if nodes != [] {
      var rest := nodes[1..];
      OwnIs(q, rest, x);
      ContributionsAre(q, nodes[0], x);
      if k :| 0 <= k < |rest| && Contributes(q, rest[k], x) { assert nodes[k + 1] == rest[k]; }
      if k :| 0 <= k < |nodes| && Contributes(q, nodes[k], x) {
        if k > 0 { assert rest[k - 1] == nodes[k]; }
      }
    }
  }

  lemma PlaceHasAddress(q: Query, payload: Json, x: Selection) returns (a: Address)
    requires x in Places(q, payload)
    ensures IsVisited(q, payload, a) && At(payload, a).Some? && Contributes(q, At(payload, a).value, x)
  {
    hide Contributes, Places, Own, IsVisited, At, NodeOrder, ROOT, ComesBefore, SearchPayload;
    var at := NodesExactly(q, payload);
    var nodes := NodeOrder(q, [Node(payload, ROOT, ROOT)]);
    OwnIs(q, nodes, x);
    var k :| 0 <= k < |nodes| && Contributes(q, nodes[k], x);
    a := at[k];
    assert At(payload, at[k]) == Some(nodes[k]);
  }

  lemma AddressHasPlace(q: Query, payload: Json, x: Selection, a: Address)
    requires IsVisited(q, payload, a) && At(payload, a).Some? && Contributes(q, At(payload, a).value, x)
    ensures x in Places(q, payload)
  {
    hide Contributes, Places, Own, IsVisited, At, NodeOrder, ROOT, ComesBefore, SearchPayload;
    var at := NodesExactly(q, payload);
    var nodes := NodeOrder(q, [Node(payload, ROOT, ROOT)]);
    var k :| 0 <= k < |at| && at[k] == a;
    assert At(payload, at[k]) == Some(nodes[k]) && Contributes(q, nodes[k], x);
    OwnIs(q, nodes, x);
  }

  /** Something is selected at a place if and only if the search gets to some address that contributes it; the path it
      is written to is the one rendered on the way down to that address. */
  lemma PlacesExactly(q: Query, payload: Json, x: Selection)
    ensures x in Places(q, payload) <==> exists a: Address ::
      IsVisited(q, payload, a) && At(payload, a).Some? && Contributes(q, At(payload, a).value, x)
  {
    hide Contributes, Places, IsVisited, At;
    if x in Places(q, payload) {
      var a := PlaceHasAddress(q, payload, x);
    }
    if a: Address :| IsVisited(q, payload, a) && At(payload, a).Some? && Contributes(q, At(payload, a).value, x) {
      AddressHasPlace(q, payload, x, a);
    }
  }
}
