/**
 What an accepted page of evidence tells. A guard sees one response and none of the evidence, so it can only ask whether
 some evidence exists of which the response is the honest page. It accepts exactly those.
 */
module HonestPages {
  import opened Outcomes
  import opened Texts
  import opened Sorting
  import opened Utf8
  import opened EvidencePaging
  import J = JsonText

  // ---- Byte ranges of a text ----

  /** The response shows `piece` of the text that continues it by `before` and `after`, and reports it so. */
  ghost predicate IsPiece(before: Text, piece: Text, after: Text, range: TextRange, r: TextResult) {
    && IsWellFormed(before) && IsWellFormed(piece) && IsWellFormed(after) && (piece != [] ==> piece[0] != 0xFEFF)
    && (after != [] ==> piece != []) && r.selection == Word(piece) && r.complete == Flag(false)
    && var start, size, total := |Encode(before)|, |Encode(piece)|, |Encode(before + piece + after)|;
       && range.path.Word? && range.path.text != [] && range.start == Number(start)
       && range.length.Number? && 1 <= range.length.n <= 9007199254740991 && size <= range.length.n
       && r.byteCount.Number? && total <= r.byteCount.n <= 9007199254740991
       && r.pagination == Some(TextPagination(range.path, range.start, range.length, Number(total), Number(size),
         Flag(after != []), if after == [] then Nil else Number(start + size), Flag(before == [] && after == []),
         Flag(after != [] && size < range.length.n)))
  }

  /** A text of so many bytes. */
  function Padding(n: nat): (t: Text)
    ensures |t| == n && forall i :: 0 <= i < n ==> t[i] == 97
  {
    seq(n, i => 97)
  }

  lemma {:induction false} PaddingBytes(t: Text)
    requires forall i :: 0 <= i < |t| ==> t[i] == 97
    ensures IsWellFormed(t) && |Encode(t)| == |t|
  {
    if t != [] { PaddingBytes(t[1..]); }
  }

  lemma NoBytes(t: Text)
    ensures |Encode(t)| == 0 <==> t == []
  {
    hide UnitBytes;
    if t != [] && !StartsPair(t) { UnitSize(t[0]); }
  }

  lemma PiecesSize(before: Text, piece: Text, after: Text)
    requires IsWellFormed(before) && IsWellFormed(piece) && IsWellFormed(after)
    ensures |Encode(before + piece + after)| == |Encode(before)| + |Encode(piece)| + |Encode(after)|
  {
    hide Encode, IsWellFormed;
    WellFormedConcat(before, piece);
    EncodeConcat(before, piece);
    EncodeConcat(before + piece, after);
  }

  lemma PieceIsPage(before: Text, piece: Text, after: Text, range: TextRange, r: TextResult)
    requires IsPiece(before, piece, after, range, r)
    ensures IsTextRange(range) && IsTextPage(range, r)
  {
    hide Encode, IsWellFormed;
    PiecesSize(before, piece, after);
    NoBytes(before);
    NoBytes(piece);
    NoBytes(after);
  }

  lemma PageIsPiece(range: TextRange, r: TextResult)
    requires IsTextRange(range) && IsTextPage(range, r)
    ensures exists before, piece, after :: IsPiece(before, piece, after, range, r)
  {
    hide Encode, IsWellFormed;
    var start, total, piece := range.start.n, r.pagination.value.total.n, r.selection.text;
    var before, after := Padding(start), Padding(total - start - |Encode(piece)|);
    PaddingBytes(before);
    PaddingBytes(after);
    PiecesSize(before, piece, after);
    NoBytes(piece);
    assert IsPiece(before, piece, after, range, r);
  }

  /** A text page is accepted if and only if there is a text of which it is the piece asked for: the bytes before and
      after it, the text's size and where the next page begins are all as it says. Without a path no text page may be
      there at all. */
  lemma TextPageExactly(range: Option<TextRange>, result: Option<TextResult>)
    ensures AssertTextPage(range, result) == Accepted <==>
      if range.None? || range.value.path == Missing then result.None? || !result.value.present
      else result.Some? && exists before, piece, after :: IsPiece(before, piece, after, range.value, result.value)
  {
    hide IsTextPage, IsTextRange, IsPiece;
    if range.Some? && result.Some? && range.value.path != Missing {
      if before, piece, after :| IsPiece(before, piece, after, range.value, result.value) {
        PieceIsPage(before, piece, after, range.value, result.value);
      }
      if IsTextRange(range.value) && IsTextPage(range.value, result.value) {
        PageIsPiece(range.value, result.value);
      }
    }
  }

  // ---- Selected rows ----

  /** A row of a source of so many rows, with a value for each field and no other. */
  ghost predicate IsRow(row: Item, fields: seq<Text>, source: nat) {
    && row.Item? && row.values.Some? && row.missing.Some?
    && (exists n: nat :: n < source && row.index == Number(n))
    && (forall f :: f in row.values.value <==> f in fields) && Distinct(row.missing.value)
    && forall v :: v in row.missing.value ==> exists f :: f in fields && v == Word(f)
  }

  /** The selected rows in rank order, each row of the source at most once. */
  ghost predicate IsRanking(ranked: seq<Item>, fields: seq<Text>, source: nat) {
    && (forall i :: 0 <= i < |ranked| ==> IsRow(ranked[i], fields, source))
    && forall i, j :: 0 <= i < j < |ranked| && ranked[i].Item? && ranked[j].Item? ==> ranked[i].index != ranked[j].index
  }

  /** The query part: what was asked, and how many rows could be compared. */
  ghost predicate IsQuery(range: ScalarRange, q: Query, matched: nat, source: nat, exhausted: bool) {
    && (exists incomparable: nat, unordered: nat ::
      && incomparable <= source && unordered <= matched
      && (range.filters.None? ==> incomparable == 0) && (range.orderBy.None? ==> unordered == 0)
      && q == Query(Word(Lit("selected_rank")), Number(source), Number(matched), Number(source), Flag(true), q.filters,
        q.orderBy, Number(incomparable), Number(unordered), Flag(exhausted)))
    && (range.filters.None? ==> matched == source)
    && (if range.filters.None? || range.filters.value == J.Json.Arr([])
          then q.filters.None? || q.filters.value.Null? || q.filters.value == J.Json.Arr([])
          else q.filters == range.filters)
    && if range.orderBy.None? then q.orderBy.None? || q.orderBy.value.Null? else q.orderBy == range.orderBy
  }

  ghost predicate IsFieldList(fields: seq<Text>, v: Option<J.Json>) {
    v.Some? && v.value.Arr? && |v.value.items| == |fields|
    && forall i :: 0 <= i < |fields| ==> v.value.items[i] == J.Json.Str(fields[i])
  }

  /** The response shows `rows` of a ranking that goes on with `after`, `range.start` rows after its beginning or, when
      it is shorter than that, none. */
  ghost predicate IsRowPage(before: seq<Item>, rows: seq<Item>, after: seq<Item>, source: nat, range: ScalarRange,
                            r: ScalarResult)
  {
    && IsRanking(before + rows + after, range.fields, source) && |before + rows + after| <= source <= 5000
    && (|before| == range.start || (|before| < range.start && rows == after == [])) && |rows| <= range.count
    && (after != [] ==> rows != []) && r.selection == Some(rows)
    && r.schema == Word(Lit("revit-operator.evidence-retrieval.v1")) && r.complete == Flag(false)
    && var short := after != [] && |rows| < range.count;
       && r.pagination.Some? && r.pagination.value.query.Some? && IsFieldList(range.fields, r.pagination.value.fields)
       && IsQuery(range, r.pagination.value.query.value, |before + rows + after|, source, after == [])
       && r.pagination == Some(Pagination(Word(range.path), Number(range.start), Number(range.count), Number(|rows|),
         Number(source), Flag(false), Word(Lit("selected_fields")), r.pagination.value.fields, Flag(after != []),
         if after == [] then Nil else Number(range.start + |rows|), Flag(short), Flag(!short),
         r.pagination.value.query))
  }

  lemma RowIsExact(row: Item, range: ScalarRange, source: nat)
    requires source <= 5000
    ensures IsRow(row, range.fields, source) <==> IsExactItem(row, range, source)
  {
    if IsExactItem(row, range, source) {
      assert row.index == Number(row.index.n);
      forall v | v in row.missing.value ensures exists f :: f in range.fields && v == Word(f) {
        assert v.text in range.fields;
      }
    }
  }

  function NumbersBelow(bound: nat): (s: set<nat>)
    ensures |s| == bound && forall n: nat :: n in s <==> n < bound
  {
    if bound == 0 then {} else NumbersBelow(bound - 1) + {bound - 1}
  }

  /** As many numbers below the bound as there is room for, none of them used yet. */
  lemma {:induction false} FreshIndices(used: set<nat>, bound: nat, count: nat) returns (free: seq<nat>)
    requires (forall n :: n in used ==> n < bound) && |used| + count <= bound
    ensures |free| == count && Distinct(free)
    ensures forall i :: 0 <= i < count ==> free[i] < bound && free[i] !in used
    decreases count
  {
    if count == 0 { return []; }
    var unused := NumbersBelow(bound) - used;
    assert |unused| == bound - |used| by { assert used <= NumbersBelow(bound); }
    var n :| n in unused;
    var others := FreshIndices(used + {n}, bound, count - 1);
    free := [n] + others;
  }

  function FillerRow(index: nat, fields: seq<Text>): Item { Item(Number(index), Some(fields), Some([])) }

  function FillerRows(indices: seq<nat>, fields: seq<Text>): (rows: seq<Item>)
    ensures |rows| == |indices| && forall i :: 0 <= i < |rows| ==> rows[i] == FillerRow(indices[i], fields)
  {
    seq(|indices|, i requires 0 <= i < |indices| => FillerRow(indices[i], fields))
  }

  /** Rows with indices of their own are part of a ranking of any length the source has room for. */
  lemma RankingAround(rows: seq<Item>, fields: seq<Text>, source: nat, start: nat, rest: nat)
    returns (before: seq<Item>, after: seq<Item>)
    requires IsRanking(rows, fields, source) && start + |rows| + rest <= source
    ensures |before| == start && |after| == rest && IsRanking(before + rows + after, fields, source)
  {
    hide IsRow;
    var used, free := UsedAndFresh(rows, fields, source, start + rest);
    before, after := FillerRows(free[..start], fields), FillerRows(free[start..], fields);
    var ranked := before + rows + after;
    forall i | 0 <= i < |ranked|
      ensures IsRow(ranked[i], fields, source)
      ensures ranked[i] == if start <= i < start + |rows| then rows[i - start]
        else FillerRow(free[if i < start then i else i - |rows|], fields)
    {
      if i < start || i >= start + |rows| { FillerIsRow(free[if i < start then i else i - |rows|], fields, source); }
    }
    forall i, j | 0 <= i < j < |ranked| && ranked[i].Item? && ranked[j].Item?
      ensures ranked[i].index != ranked[j].index
    {
      AreApart(ranked, rows, fields, free, start, i, j);
    }
  }

  lemma AreApart(ranked: seq<Item>, rows: seq<Item>, fields: seq<Text>, free: seq<nat>, start: nat, i: nat, j: nat)
    requires i < j < |ranked| == |rows| + |free| && start <= |free| && Distinct(free)
    requires forall k :: 0 <= k < |ranked| ==>
      ranked[k] == if start <= k < start + |rows| then rows[k - start]
        else FillerRow(free[if k < start then k else k - |rows|], fields)
    requires forall k, l :: 0 <= k < l < |rows| && rows[k].Item? && rows[l].Item? ==> rows[k].index != rows[l].index
    requires forall k, l :: 0 <= k < |free| && 0 <= l < |rows| && rows[l].Item? ==> rows[l].index != Number(free[k])
    requires ranked[i].Item? && ranked[j].Item?
    ensures ranked[i].index != ranked[j].index
  {
  }

  lemma FillerIsRow(index: nat, fields: seq<Text>, source: nat)
    requires index < source
    ensures IsRow(FillerRow(index, fields), fields, source)
  {
  }

  lemma UsedAndFresh(rows: seq<Item>, fields: seq<Text>, source: nat, count: nat)
    returns (used: set<nat>, free: seq<nat>)
    requires IsRanking(rows, fields, source) && |rows| + count <= source
    ensures |free| == count && Distinct(free)
    ensures forall i :: 0 <= i < count ==> free[i] < source
    ensures forall i, k :: 0 <= i < count && 0 <= k < |rows| && rows[k].Item? ==> rows[k].index != Number(free[i])
  {
    used := IndexSet(rows, fields, source);
    free := FreshIndices(used, source, count);
  }

  lemma {:induction false} IndexSet(rows: seq<Item>, fields: seq<Text>, source: nat) returns (used: set<nat>)
    requires IsRanking(rows, fields, source)
    ensures |used| <= |rows| && forall n :: n in used ==> n < source
    ensures forall k :: 0 <= k < |rows| && rows[k].Item? && rows[k].index.Number? && rows[k].index.n >= 0 ==>
      rows[k].index.n in used
  {
    if rows == [] { return {}; }
    var front, last := rows[..|rows| - 1], rows[|rows| - 1];
    assert IsRow(last, fields, source);
    used := IndexSet(front, fields, source);
    assert forall k :: 0 <= k < |front| ==> front[k] == rows[k];
    used := used + {last.index.n};
  }

  lemma FieldListExactly(fields: seq<Text>, v: Option<J.Json>)
    ensures IsFieldList(fields, v) <==> v == Some(FieldList(fields))
  {
    if IsFieldList(fields, v) {
      assert v.value.items == FieldList(fields).items;
    }
  }

  lemma QueryAgrees(range: ScalarRange, p: Pagination, q: Query, matched: nat, source: nat, exhausted: bool)
    requires IsParsedRange(range) && matched <= source <= 5000
    requires p.path == Word(range.path) && p.start == Number(range.start) && p.requested == Number(range.count)
    requires p.total == Number(source) && p.sourceExhausted == Flag(false) && p.projection == SELECTED_FIELDS
    ensures IsFieldList(range.fields, p.fields) && IsQuery(range, q, matched, source, exhausted)
      <==> Echoes(range, p, q) && CountsAgree(range, p, q, source, matched) && q.exhausted == Flag(exhausted)
  {
    hide Lit, FieldList, J.IsJson, IsFieldList;
    FieldListExactly(range.fields, p.fields);
    if Echoes(range, p, q) && CountsAgree(range, p, q, source, matched) && q.exhausted == Flag(exhausted) {
      var incomparable, unordered := q.incomparable.n, q.unordered.n;
      assert q == Query(Word(Lit("selected_rank")), Number(source), Number(matched), Number(source), Flag(true),
        q.filters,
        q.orderBy, Number(incomparable), Number(unordered), Flag(exhausted));
    }
  }

  lemma RowsExactly(rows: seq<Item>, range: ScalarRange, source: nat)
    requires source <= 5000
    ensures IsRanking(rows, range.fields, source) <==> AreExactItems(rows, range, source)
  {
    hide IsRow, IsExactItem;
    forall i | 0 <= i < |rows| ensures IsRow(rows[i], range.fields, source) <==> IsExactItem(rows[i], range, source) {
      RowIsExact(rows[i], range, source);
    }
    if AreExactItems(rows, range, source) {
      forall i | 0 <= i < |rows| ensures rows[i].Item? { RowIsItem(rows[i], range, source); }
    }
    if IsRanking(rows, range.fields, source) {
      forall i | 0 <= i < |rows| ensures rows[i].Item? { RowIsItem(rows[i], range, source); }
    }
  }

  lemma RowIsItem(row: Item, range: ScalarRange, source: nat)
    requires IsRow(row, range.fields, source) || IsExactItem(row, range, source)
    ensures row.Item?
  {
  }

  lemma RankingOf(before: seq<Item>, rows: seq<Item>, after: seq<Item>, fields: seq<Text>, source: nat)
    requires IsRanking(before + rows + after, fields, source)
    ensures IsRanking(rows, fields, source)
  {
    hide IsRow;
    var all := before + rows + after;
    assert forall i :: 0 <= i < |rows| ==> rows[i] == all[|before| + i];
  }

  lemma RowPageIsExact(before: seq<Item>, rows: seq<Item>, after: seq<Item>, source: nat, range: ScalarRange,
                       r: ScalarResult)
    requires IsParsedRange(range) && IsRowPage(before, rows, after, source, range, r)
    ensures IsExactPage(range, r)
  {
    hide IsRow, IsExactItem, IsQuery, Echoes, IsFieldList, IsRanking, AreExactItems, Lit;
    var p, q, matched := r.pagination.value, r.pagination.value.query.value, |before + rows + after|;
    QueryAgrees(range, p, q, matched, source, after == []);
    RankingOf(before, rows, after, range.fields, source);
    RowsExactly(rows, range, source);
  }

  lemma ExactIsRowPage(range: ScalarRange, r: ScalarResult)
    requires IsParsedRange(range) && IsExactPage(range, r)
    ensures exists before, rows, after, source :: IsRowPage(before, rows, after, source, range, r)
  {
    hide IsRow, IsExactItem, IsQuery, IsFieldList, FieldList, Or, IsRanking, AreExactItems, Lit;
    var p, q, rows := r.pagination.value, r.pagination.value.query.value, r.selection.value;
    var matched, source := q.matched.n, q.source.n;
    RowsExactly(rows, range, source);
    var start := Min(range.start, matched - |rows|);
    var before, after := RankingAround(rows, range.fields, source, start, matched - |rows| - start);
    QueryAgrees(range, p, q, matched, source, after == []);
    assert IsRowPage(before, rows, after, source, range, r);
  }

  /** A row page is exact, and so accepted, if and only if there is a ranking of the source's rows of which it shows the
      rows asked for: the number of rows selected, whether more follow and where they begin are all as it says. */
  lemma RowPageExactly(range: ScalarRange, r: ScalarResult)
    requires IsParsedRange(range)
    ensures IsExactPage(range, r) <==>
      exists before, rows, after, source :: IsRowPage(before, rows, after, source, range, r)
  {
    hide IsExactPage, IsRowPage;
    if before, rows, after, source :| IsRowPage(before, rows, after, source, range, r) {
      RowPageIsExact(before, rows, after, source, range, r);
    }
    if IsExactPage(range, r) { ExactIsRowPage(range, r); }
  }
}
