/**
 The guards on pages of retained evidence: selected rows of a table, and byte ranges of a text. A guard accepts
 exactly the pages that tell the truth about their place in the whole, so accepted pages tile it.
 */
module EvidencePaging {
  import opened Outcomes
  import opened Texts
  import opened Sorting
  import opened Utf8
  import J = JsonText

  /** A property of a response, as far as the guards compare it. */
  datatype Value = Missing | Nil | Flag(on: bool) | Number(n: int) | Word(text: Text) | Other

  const MAXIMUM_SAFE := 9007199254740991

  predicate IsSafe(v: Value) { v.Number? && -MAXIMUM_SAFE <= v.n <= MAXIMUM_SAFE }

  predicate IsCount(v: Value) { IsSafe(v) && v.n >= 0 }

  function Min(a: int, b: int): int { if a < b then a else b }

  function Max(a: int, b: int): int { if a < b then b else a }

  // ---- Pages and cursors ----

  /** Where a page begins, how much it holds, and where it says the next one begins. */
  datatype Page = Page(start: nat, size: nat, next: Option<nat>)

  /** A page that is honest about a whole of the given total. */
  predicate IsHonest(p: Page, total: nat) {
    && (p.start + p.size <= total || p.size == 0)
    && p.next == (if p.start + p.size < total then Some(p.start + p.size) else None)
    && (p.next.Some? ==> p.size > 0)
  }

  /** A client that starts at 0 and follows each next start. */
  ghost predicate IsFollowed(pages: seq<Page>, total: nat) {
    && pages != [] && pages[0].start == 0
    && (forall i :: 0 <= i < |pages| ==> IsHonest(pages[i], total))
    && forall i, j :: 0 <= i && j == i + 1 < |pages| ==> pages[i].next == Some(pages[j].start)
  }

  function TotalSize(pages: seq<Page>): nat {
    if pages == [] then 0 else TotalSize(pages[..|pages| - 1]) + pages[|pages| - 1].size
  }

  lemma {:induction false} FollowedSoFar(pages: seq<Page>, total: nat)
    requires IsFollowed(pages, total)
    ensures TotalSize(pages) == pages[|pages| - 1].start + pages[|pages| - 1].size
    ensures pages[|pages| - 1].start >= |pages| - 1
    ensures |pages| > 1 ==> pages[|pages| - 1].start < total
    ensures TotalSize(pages) <= total
  {
    var last := |pages| - 1;
    if last > 0 {
      var front := pages[..last];
      assert forall i :: 0 <= i < last ==> front[i] == pages[i];
      FollowedSoFar(front, total);
      assert pages[last - 1].next == Some(pages[last].start);
    }
  }

  /** Honest pages tile the whole: never more than max(1, total) of them, and when one ends the run
      everything was received. */
  lemma FollowedPagesTile(pages: seq<Page>, total: nat)
    requires IsFollowed(pages, total)
    ensures |pages| <= Max(1, total)
    ensures TotalSize(pages) <= total
    ensures pages[|pages| - 1].next.None? <==> TotalSize(pages) == total
  {
    FollowedSoFar(pages, total);
  }

  // ---- Selected rows ----

  /** A parsed item range. Filters and order are the JSON arrays and objects of the request. */
  datatype ScalarRange = ScalarRange(path: Text, start: nat, count: nat, fields: seq<Text>, filters: Option<J.Json>,
      orderBy: Option<J.Json>)

  datatype Query = Query(basis: Value, source: Value, matched: Value, scanned: Value, scanComplete: Value,
      filters: Option<J.Json>, orderBy: Option<J.Json>, incomparable: Value, unordered: Value, exhausted: Value)

  datatype Pagination = Pagination(path: Value, start: Value, requested: Value, returned: Value, total: Value,
      sourceExhausted: Value, projection: Value, fields: Option<J.Json>, hasMore: Value, next: Value,
      byteLimited: Value, complete: Value, query: Option<Query>)

  /** A returned row; `values` are the names of its values. */
  datatype Item = NoRecord | Item(index: Value, values: Option<seq<Text>>, missing: Option<seq<Value>>)

  datatype ScalarResult = ScalarResult(schema: Value, complete: Value, pagination: Option<Pagination>,
      selection: Option<seq<Item>>)

  const RETRIEVAL := Word(Lit("revit-operator.evidence-retrieval.v1"))
  const SELECTED_RANK := Word(Lit("selected_rank"))
  const SELECTED_FIELDS := Word(Lit("selected_fields"))
  const MAXIMUM_SOURCE := 5000
  const EMPTY_LIST := J.Json.Arr([])

  function FieldList(fields: seq<Text>): (r: J.Json)
    ensures J.IsJson(r)
  {
    J.Json.Arr(seq(|fields|, i requires 0 <= i < |fields| => J.Json.Str(fields[i])))
  }

  predicate IsJsonIfAny(v: Option<J.Json>) { v.Some? ==> J.IsJson(v.value) }

  /** What the request parser guarantees of a range. */
  ghost predicate IsParsedRange(range: ScalarRange) {
    && range.start <= MAXIMUM_SAFE && 1 <= range.count <= 256
    && Distinct(range.fields) && IsJsonIfAny(range.filters) && IsJsonIfAny(range.orderBy)
    && (range.filters.Some? ==> range.filters.value.Arr?) && (range.orderBy.Some? ==> range.orderBy.value.Obj?)
  }

  /** Any response that was parsed from JSON. */
  ghost predicate IsParsedResult(r: ScalarResult) {
    && (r.pagination.Some? ==>
          (&& IsJsonIfAny(r.pagination.value.fields)
           && (r.pagination.value.query.Some? ==>
             IsJsonIfAny(r.pagination.value.query.value.filters)
             && IsJsonIfAny(r.pagination.value.query.value.orderBy))))
    && (r.selection.Some? ==>
      forall i :: 0 <= i < |r.selection.value| && r.selection.value[i].Item? && r.selection.value[i].values.Some? ==>
          Distinct(r.selection.value[i].values.value))
  }

  /** `value ?? fallback` */
  function Or(v: Option<J.Json>, fallback: J.Json): J.Json {
    if v.None? || v.value.Null? then fallback else v.value
  }

  predicate SameText(a: J.Json, b: J.Json)
    requires J.IsJson(a) && J.IsJson(b)
    ensures SameText(a, b) <==> a == b
  {
    if J.Print(a) == J.Print(b) then J.PrintInjective(a, b); true else false
  }

  predicate IsSelective(range: ScalarRange) { range.filters.Some? || range.orderBy.Some? }

  /** The response repeats the request it answers. */
  ghost predicate Echoes(range: ScalarRange, p: Pagination, q: Query) {
    && p.path == Word(range.path) && p.start == Number(range.start) && p.requested == Number(range.count)
    && p.projection == SELECTED_FIELDS && q.basis == SELECTED_RANK
    && p.fields == Some(FieldList(range.fields))
    && Or(q.filters, EMPTY_LIST) == Or(range.filters, EMPTY_LIST)
      && Or(q.orderBy, J.Json.Null) == Or(range.orderBy, J.Json.Null)
  }

  /** The counts are consistent: every source row was scanned and the matched ones are among them. */
  predicate CountsAgree(range: ScalarRange, p: Pagination, q: Query, source: int, matched: int) {
    && q.source == p.total == q.scanned == Number(source) && q.scanComplete == Flag(true)
      && p.sourceExhausted == Flag(false)
    && q.matched == Number(matched) && 0 <= matched <= source <= MAXIMUM_SOURCE
    && IsCount(q.incomparable) && q.incomparable.n <= source && IsCount(q.unordered) && q.unordered.n <= matched
    && (range.filters.None? ==> q.incomparable.n == 0 && matched == source)
    && (range.orderBy.None? ==> q.unordered.n == 0)
  }

  function NextOf(v: Value): Option<nat> { if v.Number? && v.n >= 0 then Some(v.n) else None }

  /** The page is honest about its place among the matched rows, and admits when it was cut short. */
  ghost predicate TellsPlace(range: ScalarRange, p: Pagination, exhausted: Value, size: nat, matched: nat) {
    && IsHonest(Page(range.start, size, NextOf(p.next)), matched)
    && (p.next == Nil || NextOf(p.next).Some?) && p.hasMore == Flag(p.next != Nil) && exhausted == Flag(p.next == Nil)
    && p.complete == Flag(size == range.count || range.start + size >= matched)
    && p.byteLimited == Flag(!(size == range.count || range.start + size >= matched))
  }

  /** A row with a source index of its own and exactly the requested fields. */
  ghost predicate IsExactItem(item: Item, range: ScalarRange, source: nat) {
    && item.Item? && IsCount(item.index) && item.index.n < source
    && item.values.Some? && (forall f :: f in item.values.value <==> f in range.fields)
    && item.missing.Some? && Distinct(item.missing.value)
    && forall v :: v in item.missing.value ==> v.Word? && v.text in range.fields
  }

  ghost predicate AreExactItems(items: seq<Item>, range: ScalarRange, source: nat) {
    && (forall i :: 0 <= i < |items| ==> IsExactItem(items[i], range, source))
    && forall i, j :: 0 <= i < j < |items| ==> items[i].index != items[j].index
  }

  ghost predicate IsExactPage(range: ScalarRange, r: ScalarResult) {
    && r.schema == RETRIEVAL && r.complete == Flag(false) && r.pagination.Some? && r.pagination.value.query.Some?
      && r.selection.Some?
    && var p, q, items := r.pagination.value, r.pagination.value.query.value, r.selection.value;
       && IsCount(q.source) && IsCount(q.matched)
       && Echoes(range, p, q) && CountsAgree(range, p, q, q.source.n, q.matched.n)
       && |items| <= range.count && p.returned == Number(|items|)
         && TellsPlace(range, p, q.exhausted, |items|, q.matched.n)
       && AreExactItems(items, range, q.source.n)
  }

  // ---- assertScalarEvidencePageV1 ----

  predicate SameRequest(range: ScalarRange, p: Pagination, q: Query)
    requires IsParsedRange(range) && IsJsonIfAny(p.fields) && IsJsonIfAny(q.filters) && IsJsonIfAny(q.orderBy)
    ensures SameRequest(range, p, q) <==> Echoes(range, p, q)
  {
    hide J.Print;
    && p.path == Word(range.path) && p.start == Number(range.start) && p.requested == Number(range.count)
      && q.basis == SELECTED_RANK
    && p.projection == SELECTED_FIELDS && p.fields.Some? && SameText(p.fields.value, FieldList(range.fields))
    && SameText(Or(q.filters, EMPTY_LIST), Or(range.filters, EMPTY_LIST))
    && SameText(Or(q.orderBy, J.Json.Null), Or(range.orderBy, J.Json.Null))
  }

  predicate SamePlace(range: ScalarRange, p: Pagination, exhausted: Value, size: nat, matched: nat)
    requires size <= range.count
    ensures SamePlace(range, p, exhausted, size, matched) <==> TellsPlace(range, p, exhausted, size, matched)
  {
    var available, more := Max(0, matched - range.start), range.start + size < matched;
    && size <= available && p.hasMore == Flag(more) && p.next == (if more then Number(range.start + size) else Nil)
    && exhausted == Flag(!more) && p.byteLimited == Flag(size < Min(range.count, available))
    && p.complete == Flag(!p.byteLimited.on) && !(more && size == 0)
  }

  predicate IsDistinct(vs: seq<Value>)
    ensures IsDistinct(vs) <==> Distinct(vs)
  {
    forall i, j :: 0 <= i < j < |vs| ==> vs[i] != vs[j]
  }

  lemma SameNames(names: seq<Text>, fields: seq<Text>)
    requires Distinct(names) && Distinct(fields)
    ensures (|names| == |fields| && forall f :: f in fields ==> f in names) <==> forall f :: f in names <==> f in fields
  {
    if |names| == |fields| && forall f :: f in fields ==> f in names {
      DistinctCover(fields, names);
      SameMembers(fields, names);
    }
    if forall f :: f in names <==> f in fields {
      DistinctLength(names, fields);
      DistinctLength(fields, names);
    }
  }

  lemma {:induction false} DistinctLength(a: seq<Text>, b: seq<Text>)
    requires Distinct(a) && forall f :: f in a ==> f in b
    ensures |a| <= |b|
  {
    if a != [] {
      var last := |a| - 1;
      assert a[last] in b;
      var j :| 0 <= j < |b| && b[j] == a[last];
      var others := b[..j] + b[j + 1..];
      forall f | f in a[..last] ensures f in others {
        var i :| 0 <= i < last && a[i] == f;
        assert f in b && f != b[j];
        var k :| 0 <= k < |b| && b[k] == f;
        assert f == if k < j then others[k] else others[k - 1];
      }
      DistinctLength(a[..last], others);
    }
  }

  method CheckItem(item: Item, range: ScalarRange, source: nat) returns (ok: bool)
    requires Distinct(range.fields) && (item.Item? && item.values.Some? ==> Distinct(item.values.value))
    ensures ok <==> IsExactItem(item, range, source)
  {
    if item.NoRecord? || item.values.None? || item.missing.None? { return false; }
    SameNames(item.values.value, range.fields);
    ok := IsCount(item.index) && item.index.n < source
      && (forall v :: v in item.missing.value ==> v.Word? && v.text in range.fields) && IsDistinct(item.missing.value)
      && |item.values.value| == |range.fields| && forall f :: f in range.fields ==> f in item.values.value;
  }

  method CheckItems(items: seq<Item>, range: ScalarRange, source: nat) returns (ok: bool)
    requires Distinct(range.fields)
    requires forall i :: 0 <= i < |items| && items[i].Item? && items[i].values.Some? ==> Distinct(items[i].values.value)
    ensures ok <==> AreExactItems(items, range, source)
  {
    var indices: set<int> := {};
    for i := 0 to |items|
      invariant AreExactItems(items[..i], range, source)
      invariant forall n :: n in indices <==> exists k :: 0 <= k < i && items[k].Item? && items[k].index == Number(n)
    {
      assert forall k :: 0 <= k < i ==> items[..i][k] == items[k] && IsExactItem(items[k], range, source);
      var exact := CheckItem(items[i], range, source);
      if !exact || items[i].index.n in indices { return false; }
      indices := indices + {items[i].index.n};
    }
    assert items[..|items|] == items;
    return true;
  }

  /** Accepts a page exactly when it is the page that was asked for, honest about its place. Ranges without filters and
      without an order are not looked at. */
  method AssertScalarPage(range: ScalarRange, result: Option<ScalarResult>) returns (ok: bool)
    requires IsParsedRange(range) && (result.Some? ==> IsParsedResult(result.value))
    ensures ok <==>
      (range.filters.None? && range.orderBy.None?) || (result.Some? && IsExactPage(range, result.value))
  {
    hide Echoes, SameRequest, TellsPlace, SamePlace, IsExactItem, AreExactItems, FieldList, RETRIEVAL, SELECTED_RANK;
    hide SELECTED_FIELDS, J.IsJson;
    if !IsSelective(range) { return true; }
    if result.None? { return false; }
    var r := result.value;
    if r.schema != RETRIEVAL || r.complete != Flag(false) || r.pagination.None? || r.pagination.value.query.None?
      || r.selection.None?
    {
      return false;
    }
    var p, q, items := r.pagination.value, r.pagination.value.query.value, r.selection.value;
    if !SameRequest(range, p, q) || p.returned != Number(|items|) || |items| > range.count
       || !IsCount(q.source) || !IsCount(q.matched) || !CountsAgree(range, p, q, q.source.n, q.matched.n) {
      return false;
    }
    if !SamePlace(range, p, q.exhausted, |items|, q.matched.n) { return false; }
    ok := CheckItems(items, range, q.source.n);
  }

  // ---- Runs of row pages ----

  datatype Exchange = Exchange(range: ScalarRange, result: ScalarResult)

  /** A client that follows next_start over accepted pages with one total. */
  ghost predicate IsScalarRun(run: seq<Exchange>, total: nat) {
    && run != [] && run[0].range.start == 0
    && (forall i :: 0 <= i < |run| ==>
      IsExactPage(run[i].range, run[i].result) && run[i].result.pagination.value.query.value.matched == Number(total))
    && forall i, j :: 0 <= i && j == i + 1 < |run| ==> run[i].result.pagination.value.next == Number(run[j].range.start)
  }

  ghost function RowsOf(run: seq<Exchange>): seq<Item>
    requires forall i :: 0 <= i < |run| ==> run[i].result.selection.Some?
  {
    if run == [] then [] else RowsOf(run[..|run| - 1]) + run[|run| - 1].result.selection.value
  }

  ghost function ScalarPages(run: seq<Exchange>): seq<Page>
    requires forall i :: 0 <= i < |run| ==> run[i].result.selection.Some? && run[i].result.pagination.Some?
  {
    seq(|run|, i requires 0 <= i < |run| =>
      Page(run[i].range.start, |run[i].result.selection.value|, NextOf(run[i].result.pagination.value.next)))
  }

  lemma {:induction false} RowsCounted(run: seq<Exchange>)
    requires forall i :: 0 <= i < |run| ==> run[i].result.selection.Some? && run[i].result.pagination.Some?
    ensures |RowsOf(run)| == TotalSize(ScalarPages(run))
  {
    if run != [] {
      RowsCounted(run[..|run| - 1]);
      assert ScalarPages(run)[..|run| - 1] == ScalarPages(run[..|run| - 1]);
    }
  }

  /** Following next_start over accepted row pages takes at most max(1, total) requests, and delivers
      exactly `total` rows. */
  lemma ScalarRunTiles(run: seq<Exchange>, total: nat)
    requires IsScalarRun(run, total)
    ensures |run| <= Max(1, total) && |RowsOf(run)| <= total
    ensures run[|run| - 1].result.pagination.value.next == Nil <==> |RowsOf(run)| == total
  {
    hide Echoes, CountsAgree, AreExactItems, RETRIEVAL;
    var pages := ScalarPages(run);
    assert IsFollowed(pages, total) by {
      forall i | 0 <= i < |pages| ensures IsHonest(pages[i], total) {
        assert IsExactPage(run[i].range, run[i].result);
      }
    }
    FollowedPagesTile(pages, total);
    RowsCounted(run);
    assert IsExactPage(run[|run| - 1].range, run[|run| - 1].result);
  }

  // ---- Byte ranges of a text ----

  /** The decoder drops a leading byte order mark before the comparison with the selection. */
  const BYTE_ORDER_MARK: seq<Byte> := [0xEF, 0xBB, 0xBF]

  function DecodeDroppingMark(b: seq<Byte>): Option<Text> {
    if BYTE_ORDER_MARK <= b then Decode(b[3..]) else Decode(b)
  }

  /** A text that survives encoding and decoding: well formed, and not starting with a byte order mark. */
  predicate IsReadable(s: Text) { IsWellFormed(s) && (s == [] || s[0] != 0xFEFF) }

  predicate IsMark(b: seq<Byte>) { |b| >= 3 && b[0] == 0xEF && b[1] == 0xBB && b[2] == 0xBF }

  lemma MarkIsPrefix(b: seq<Byte>)
    ensures BYTE_ORDER_MARK <= b <==> IsMark(b)
  {
    if IsMark(b) {
      assert b[..3] == BYTE_ORDER_MARK;
    }
  }

  lemma UnitMark(u: CodeUnit)
    ensures IsMark(UnitBytes(u)) <==> u == 0xFEFF
    ensures |UnitBytes(u)| < 3 ==> UnitBytes(u)[0] < 0xEF
  {
    SixBitGroups(u);
  }

  lemma MarkBytes(s: Text)
    ensures BYTE_ORDER_MARK <= Encode(s) <==> s != [] && s[0] == 0xFEFF
  {
    MarkIsPrefix(Encode(s));
    if s != [] && !StartsPair(s) {
      hide UnitBytes;
      UnitMark(s[0]);
      var first, all := UnitBytes(s[0]), Encode(s);
      UnitSize(s[0]);
      assert all == first + Encode(s[1..]);
      assert forall i :: 0 <= i < |first| ==> all[i] == first[i];
    } else if s != [] {
      assert Encode(s)[0] >= 240;
    }
  }

  lemma UnitSize(u: CodeUnit)
    ensures 1 <= |UnitBytes(u)| <= 3
  {
  }

  lemma ReadableIffDecodes(s: Text)
    ensures DecodeDroppingMark(Encode(s)) == Some(s) <==> IsReadable(s)
  {
    hide Encode, Decode, Scrub, IsWellFormed;
    MarkBytes(s);
    RoundTripIffWellFormed(s);
    if s != [] && s[0] == 0xFEFF {
      DecodeEncode(s[1..]);
      MarkThenRest(s);
    }
  }

  lemma MarkThenRest(s: Text)
    requires s != [] && s[0] == 0xFEFF
    ensures Encode(s)[3..] == Encode(s[1..])
  {
    assert !StartsPair(s) && UnitBytes(s[0]) == BYTE_ORDER_MARK;
  }

  datatype TextRange = TextRange(path: Value, start: Value, length: Value)

  datatype TextPagination = TextPagination(path: Value, start: Value, requested: Value, total: Value, returned: Value,
                                           hasMore: Value, next: Value, complete: Value, byteLimited: Value)

  /** `present` says that the response has a text_pagination property, `pagination` that it is a record. */
  datatype TextResult = TextResult(selection: Value, complete: Value, byteCount: Value, present: bool,
      pagination: Option<TextPagination>)

  datatype Verdict = Accepted | UnexpectedPagination | InvalidPagination

  const NO_RESULT := TextResult(Missing, Missing, Missing, false, None)

  function AssertTextPage(range: Option<TextRange>, result: Option<TextResult>): (v: Verdict)
    ensures v.Accepted? <==>
      (if range.None? || range.value.path == Missing then !(result.Some? && result.value.present)
       else result.Some? && IsTextRange(range.value) && IsTextPage(range.value, result.value))
  {
    hide Encode, DecodeDroppingMark, IsReadable;
    var r := if result.None? then NO_RESULT else result.value;
    if range.None? || range.value.path == Missing then (if r.present then UnexpectedPagination else Accepted)
    else
      var g := range.value;
      if !g.path.Word? || g.path.text == [] || !IsCount(g.start) || !IsSafe(g.length) || g.length.n < 1
        then InvalidPagination
      else if result.None? || !r.selection.Word? || r.complete != Flag(false) || r.pagination.None?
        then InvalidPagination
      else
        var p := r.pagination.value;
        if p.path != g.path || p.start != g.start || p.requested != g.length then InvalidPagination
        else
          var encoded := Encode(r.selection.text);
          var n := |encoded|;
          if DecodeDroppingMark(encoded) != Some(r.selection.text) then ReadableIffDecodes(r.selection.text);
            InvalidPagination
          else if !IsSafe(r.byteCount) || !IsSafe(p.total) || p.total.n < g.start.n || p.total.n > r.byteCount.n
                  || p.returned != Number(n) || n > g.length.n || n > p.total.n - g.start.n then InvalidPagination
          else
            ReadableIffDecodes(r.selection.text);
            var end := g.start.n + n;
            var more := end < p.total.n;
            if p.hasMore != Flag(more) || p.next != (if more then Number(end) else Nil) || (more && n == 0)
               || p.complete != Flag(g.start.n == 0 && !more)
                 || p.byteLimited != Flag(n < Min(g.length.n, p.total.n - g.start.n)) then InvalidPagination
            else Accepted
  }

  predicate IsTextRange(g: TextRange) {
    g.path.Word? && g.path.text != [] && IsCount(g.start) && IsSafe(g.length) && g.length.n >= 1
  }

  /** A readable piece of the text, no longer than asked and honest about its place in the whole. */
  ghost predicate IsTextPage(g: TextRange, r: TextResult)
    requires IsTextRange(g)
  {
    && r.selection.Word? && IsReadable(r.selection.text) && r.complete == Flag(false) && r.pagination.Some?
    && var p, size := r.pagination.value, |Encode(r.selection.text)|;
       && p.path == g.path && p.start == g.start && p.requested == g.length && p.returned == Number(size)
       && IsSafe(r.byteCount) && IsSafe(p.total) && g.start.n <= p.total.n <= r.byteCount.n && size <= g.length.n
       && IsHonest(Page(g.start.n, size, NextOf(p.next)), p.total.n)
       && (p.next == Nil || NextOf(p.next).Some?) && p.hasMore == Flag(p.next != Nil)
       && p.complete == Flag(size == p.total.n) && p.byteLimited == Flag(size != g.length.n && p.next != Nil)
  }

  // ---- Runs of text pages ----

  datatype TextExchange = TextExchange(range: TextRange, result: TextResult)

  ghost predicate IsTextRun(run: seq<TextExchange>, total: nat) {
    && run != []
    && (forall i :: 0 <= i < |run| ==>
      IsTextRange(run[i].range) && IsTextPage(run[i].range, run[i].result)
      && run[i].result.pagination.value.total == Number(total))
    && run[0].range.start == Number(0)
    && forall i, j :: 0 <= i && j == i + 1 < |run| ==> run[i].result.pagination.value.next == run[j].range.start
  }

  predicate HasPage(e: TextExchange) { IsTextRange(e.range) && e.result.selection.Word? && e.result.pagination.Some? }

  function TextAt(e: TextExchange): Text
    requires HasPage(e)
  {
    e.result.selection.text
  }

  ghost function TextOf(run: seq<TextExchange>): Text
    requires forall i :: 0 <= i < |run| ==> HasPage(run[i])
  {
    if run == [] then [] else TextOf(run[..|run| - 1]) + TextAt(run[|run| - 1])
  }

  ghost function PageOf(e: TextExchange): Page
    requires HasPage(e)
  {
    Page(e.range.start.n, |Encode(e.result.selection.text)|, NextOf(e.result.pagination.value.next))
  }

  ghost function TextPages(run: seq<TextExchange>): seq<Page>
    requires forall i :: 0 <= i < |run| ==> HasPage(run[i])
  {
    seq(|run|, i requires 0 <= i < |run| => PageOf(run[i]))
  }

  lemma {:induction false} TextCounted(run: seq<TextExchange>)
    requires forall i :: 0 <= i < |run| ==> HasPage(run[i]) && IsWellFormed(run[i].result.selection.text)
    ensures IsWellFormed(TextOf(run)) && |Encode(TextOf(run))| == TotalSize(TextPages(run))
  {
    hide NextOf;
    if run != [] {
      var front, last := run[..|run| - 1], run[|run| - 1].result.selection.text;
      TextCounted(front);
      assert TextPages(run)[..|run| - 1] == TextPages(front);
      EncodeConcat(TextOf(front), last);
      WellFormedConcat(TextOf(front), last);
    }
  }

  lemma TextRunHasPages(run: seq<TextExchange>, total: nat)
    requires IsTextRun(run, total)
    ensures forall i :: 0 <= i < |run| ==> HasPage(run[i])
  {
    hide Encode, IsReadable;
  }

  /** Following next_start over accepted text pages takes at most max(1, total) requests, and delivers well-formed text
      of exactly `total` bytes of UTF-8. */
  lemma TextRunTiles(run: seq<TextExchange>, total: nat)
    requires IsTextRun(run, total)
    ensures forall i :: 0 <= i < |run| ==> HasPage(run[i])
    ensures |run| <= Max(1, total) && IsWellFormed(TextOf(run)) && |Encode(TextOf(run))| <= total
    ensures run[|run| - 1].result.pagination.value.next == Nil <==> |Encode(TextOf(run))| == total
  {
    hide Encode, IsWellFormed;
    TextRunHasPages(run, total);
    var pages := TextPages(run);
    assert IsFollowed(pages, total) by {
      forall i | 0 <= i < |pages| ensures IsHonest(pages[i], total) {
        assert IsTextPage(run[i].range, run[i].result);
      }
    }
    FollowedPagesTile(pages, total);
    forall i | 0 <= i < |run| ensures IsWellFormed(run[i].result.selection.text) {
      assert IsTextPage(run[i].range, run[i].result);
      assert IsReadable(run[i].result.selection.text);
    }
    TextCounted(run);
    assert IsTextPage(run[|run| - 1].range, run[|run| - 1].result);
  }

  /** No page whose text starts with a byte order mark is accepted: the decoder drops the mark. */
  lemma MarkedPageRefused(range: TextRange, result: TextResult)
    requires range.path != Missing && result.selection.Word? && result.selection.text != []
      && result.selection.text[0] == 0xFEFF
    ensures AssertTextPage(Some(range), Some(result)) == InvalidPagination
  {
    hide Encode, Decode, IsWellFormed;
  }
}
