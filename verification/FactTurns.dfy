/**
 The supervisor's retained fact turns: while the worker asks for facts, one new observation scope is collected page
 by page, validated, retained and sent to the worker as a delta. Hashes, selectors, fact contents and the wire are
 parameters.
 */
module FactTurns {
  import opened Outcomes
  import opened Texts
  import opened Sorting

  const MAXIMUM_TURNS := 5
  const MAXIMUM_PAGES_PER_SCOPE := 64
  const MAXIMUM_PAGE_SIZE := 128
  const MAXIMUM_OBSERVED_FACTS := 2048
  const MAXIMUM_TRANSPORT_BYTES := 4 * 1024 * 1024

  datatype Selector = Selector(text: Text)

  /** An observation envelope: one page of the facts of a scope. */
  datatype Page = Page(scope: Text, snapshot: Text, documentRevision: int, fingerprint: Text, session: Text,
      revision: Text, offset: int, size: int, total: int, facts: seq<Text>, next: Option<Text>, envelope: Text)

  /** An authenticated reply of the host. `identified` stands for its schema, manifest and package checks. */
  datatype Receipt = Receipt(identified: bool, snapshotId: Text, snapshot: Text, documentRevision: int, envelope: Text,
      page: Page)

  datatype FactRequest = FactRequest(selector: Selector, known: seq<Text>, hash: Text)

  datatype Identity = Identity(source: Text, program: Text, sdk: Text)

  datatype Output = Failed | Finished(identity: Identity) | NeedsFacts(identity: Identity, request: Option<FactRequest>)

  datatype Delta = Delta(schema: Text, turn: int, requestHash: Text, snapshot: Text, documentRevision: int,
      known: seq<Text>, scope: Text, pages: seq<Page>, hash: Text)

  const DELTA_SCHEMA := Lit("dynamic-revit-worker-observation-delta/v1")

  /** The parts of the SDK that are not spelled out here. */
  datatype Sdk = Sdk(
    isHash: Text -> bool,
    isSelector: Selector -> bool,
    scopeOf: Selector -> Text,
    isRequest: FactRequest -> bool,
    isEnvelope: Page -> bool,
    hashScopes: seq<Text> -> Text,
    hashDelta: Delta -> Text,
    wireBytes: Delta -> nat,
    isContext: (seq<Page>, Text) -> bool)

  datatype Failure = InvalidRequest | ScopesDiffer | ScopeRepeated | InvalidSelector | InvalidEnvelope | InvalidReceipt
                   | NotContiguous | NotComplete | InvalidDelta | TooLarge | InvalidContext | IdentityChanged

  // ---- Pages of one scope ----

  function Min(a: int, b: int): int { if a < b then a else b }

  function FactCount(pages: seq<Page>): nat {
    if pages == [] then 0 else FactCount(pages[..|pages| - 1]) + |pages[|pages| - 1].facts|
  }

  /** The paging rules of ValidateEnvelope. */
  predicate IsPaged(p: Page) {
    && 1 <= p.size <= MAXIMUM_PAGE_SIZE && 0 <= p.offset <= p.total <= MAXIMUM_OBSERVED_FACTS
    && p.offset % p.size == 0 && |p.facts| == Min(p.size, p.total - p.offset)
    && (p.next.Some? <==> p.offset + |p.facts| < p.total)
  }

  /** A paged envelope is one of the pages that its total is cut into: of at most 128 facts each, full but for the last,
      and with a successor exactly when there is more. */
  lemma PagedExactly(p: Page)
    ensures IsPaged(p) <==>
      && 1 <= p.size && p.size <= 128 && p.total <= 2048
      && (exists k: nat :: p.offset == k * p.size) && p.offset <= p.total
      && (if p.offset + p.size < p.total then |p.facts| == p.size && p.next.Some?
          else |p.facts| == p.total - p.offset && p.next.None?)
  {
    if IsPaged(p) {
      assert p.offset == p.offset / p.size * p.size;
    }
    if 1 <= p.size && exists k: nat :: p.offset == k * p.size {
      var k: nat :| p.offset == k * p.size;
      MultipleDivides(k, p.size);
    }
  }

  lemma MultipleDivides(k: nat, size: int)
    requires size >= 1
    ensures k * size >= 0 && (k * size) % size == 0
  {
    var x := k * size;
    var rest := k - x / size;
    assert x == x / size * size + x % size;
    assert rest * size == x % size;
    if rest != 0 { RestTooLarge(rest, size); }
  }

  lemma RestTooLarge(rest: int, size: int)
    requires size >= 1 && rest != 0
    ensures rest * size >= size || rest * size < 0
  {
  }

  predicate IsEnvelope(sdk: Sdk, p: Page) { IsPaged(p) && sdk.isEnvelope(p) }

  /** Pages that tile a prefix of one scope: every offset is the number of facts before it. */
  ghost predicate IsPrefix(pages: seq<Page>) {
    && (forall i :: 0 <= i < |pages| ==> IsPaged(pages[i]) && pages[i].offset == FactCount(pages[..i]))
    && (forall i :: 0 <= i < |pages| ==>
      pages[i].size == pages[0].size && pages[i].total == pages[0].total && pages[i].scope == pages[0].scope)
    && forall i :: 0 <= i < |pages| - 1 ==> pages[i].next.Some?
  }

  /** Pages that tile a whole scope. */
  ghost predicate IsTiled(pages: seq<Page>) {
    && pages != [] && IsPrefix(pages) && pages[|pages| - 1].next.None? && FactCount(pages) == pages[0].total
  }

  lemma PrefixFull(pages: seq<Page>, i: nat)
    requires IsPrefix(pages) && i < |pages|
    ensures pages[i].offset == i * pages[0].size
    decreases i
  {
    if i > 0 {
      PrefixFull(pages, i - 1);
      assert pages[..i][..i - 1] == pages[..i - 1];
      assert pages[i - 1].next.Some?;
      NextTurn(i, pages[0].size);
    } else {
      assert pages[..0] == [];
    }
  }

  lemma NextTurn(i: nat, size: int)
    requires i > 0
    ensures (i - 1) * size + size == i * size
  {
  }

  /** A whole scope has exactly as many pages as its total needs, so a scope that needs more than 64
      cannot be collected. */
  lemma TiledPageCount(pages: seq<Page>)
    requires IsTiled(pages)
    ensures var n, size, total := |pages|, pages[0].size, pages[0].total;
      if total == 0 then n == 1 else (n - 1) * size < total <= n * size
  {
    var last := |pages| - 1;
    PrefixFull(pages, last);
    assert FactCount(pages) == FactCount(pages[..last]) + |pages[last].facts|;
    NextTurn(last + 1, pages[0].size);
    if last > 0 {
      PrefixFull(pages, last - 1);
      assert pages[last - 1].next.Some?;
      NextTurn(last, pages[0].size);
    }
  }

  lemma OffsetsExtend(pages: seq<Page>, p: Page)
    requires forall i :: 0 <= i < |pages| ==> pages[i].offset == FactCount(pages[..i])
    requires p.offset == FactCount(pages)
    ensures var all := pages + [p]; forall i :: 0 <= i < |all| ==> all[i].offset == FactCount(all[..i])
  {
    hide FactCount;
    var all, n := pages + [p], |pages|;
    assert all[..n] == pages;
    forall i | 0 <= i < |all| ensures all[i].offset == FactCount(all[..i]) {
      if i < n { assert all[..i] == pages[..i]; }
    }
  }

  lemma CountExtends(pages: seq<Page>, p: Page)
    ensures FactCount(pages + [p]) == FactCount(pages) + |p.facts|
  {
    assert (pages + [p])[..|pages|] == pages;
  }

  lemma PrefixExtends(pages: seq<Page>, p: Page)
    requires IsPrefix(pages) && IsPaged(p) && p.offset == FactCount(pages)
    requires pages != [] ==>
      p.size == pages[0].size && p.total == pages[0].total && p.scope == pages[0].scope && pages[|pages| - 1].next.Some?
    ensures IsPrefix(pages + [p]) && FactCount(pages + [p]) == p.offset + |p.facts|
  {
    hide IsPaged, FactCount;
    OffsetsExtend(pages, p);
    CountExtends(pages, p);
    var all, n := pages + [p], |pages|;
    assert all[n] == p;
    forall i | 0 <= i < |all|
      ensures IsPaged(all[i]) && all[i].size == all[0].size && all[i].total == all[0].total
      && all[i].scope == all[0].scope
    {
      if i < n { assert all[i] == pages[i] && all[0] == pages[0]; }
    }
    forall i | 0 <= i < |all| - 1 ensures all[i].next.Some? { assert all[i] == pages[i]; }
  }

  // ---- Collecting one scope ----

  /** What the retained observation fixes for every further page. */
  datatype Anchor = Anchor(snapshotId: Text, snapshot: Text, documentRevision: int, fingerprint: Text, session: Text)

  predicate IsBound(r: Receipt, anchor: Anchor, scope: Text) {
    && r.identified && r.snapshotId == anchor.snapshotId && r.snapshot == anchor.snapshot
      && r.documentRevision == anchor.documentRevision
    && r.envelope == r.page.envelope && r.page.snapshot == anchor.snapshot
      && r.page.documentRevision == anchor.documentRevision
    && r.page.scope == scope && r.page.fingerprint == anchor.fingerprint && r.page.session == anchor.session
  }

  function PagesOf(host: nat -> Receipt, n: nat): seq<Page> { seq(n, i requires 0 <= i < n => host(i).page) }

  /** The first n replies are acceptable and make up a whole scope. */
  ghost predicate IsWhole(host: nat -> Receipt, fits: Receipt -> bool, n: nat) {
    IsTiled(PagesOf(host, n)) && forall i :: 0 <= i < n ==> fits(host(i))
  }

  /** The first n replies hold valid envelopes that make up a whole scope. */
  ghost predicate AreEnvelopes(sdk: Sdk, host: nat -> Receipt, n: nat) {
    IsTiled(PagesOf(host, n)) && forall i :: 0 <= i < n ==> IsPaged(host(i).page) && sdk.isEnvelope(host(i).page)
  }

  /** The first n replies are of one snapshot, one revision and one scope, and each carries the envelope it names. */
  ghost predicate AreOneObservation(host: nat -> Receipt, n: nat) {
    && (forall i, j :: 0 <= i < n && 0 <= j < n ==>
          && host(i).snapshotId == host(j).snapshotId && host(i).page.snapshot == host(j).page.snapshot
          && host(i).page.documentRevision == host(j).page.documentRevision && host(i).page.scope == host(j).page.scope)
    && forall i :: 0 <= i < n ==>
         && host(i).identified && host(i).envelope == host(i).page.envelope
         && host(i).documentRevision == host(i).page.documentRevision
  }

  /** The first n replies are all of the retained snapshot, document and session, and of this scope. */
  ghost predicate AreBound(host: nat -> Receipt, n: nat, anchor: Anchor, scope: Text) {
    forall i :: 0 <= i < n ==>
      && host(i).identified && host(i).envelope == host(i).page.envelope
      && host(i).snapshotId == anchor.snapshotId && host(i).snapshot == anchor.snapshot
      && host(i).documentRevision == anchor.documentRevision && host(i).page.snapshot == anchor.snapshot
      && host(i).page.documentRevision == anchor.documentRevision && host(i).page.fingerprint == anchor.fingerprint
      && host(i).page.session == anchor.session && host(i).page.scope == scope
  }

  lemma WholeIsObservation(sdk: Sdk, host: nat -> Receipt, n: nat)
    ensures IsWhole(host, (reply: Receipt) => IsEnvelope(sdk, reply.page) && IsFirstBound(reply, host(0)), n) <==>
      AreEnvelopes(sdk, host, n) && AreOneObservation(host, n)
  {
    hide IsTiled, IsPaged;
    if n > 0 && AreOneObservation(host, n) {
      forall i | 0 <= i < n ensures IsFirstBound(host(i), host(0)) { }
    }
  }

  lemma WholeIsBoundTo(sdk: Sdk, host: nat -> Receipt, anchor: Anchor, scope: Text, n: nat)
    ensures IsWhole(host, (reply: Receipt) => IsEnvelope(sdk, reply.page) && IsBound(reply, anchor, scope), n) <==>
      AreEnvelopes(sdk, host, n) && AreBound(host, n, anchor, scope)
  {
    hide IsTiled, IsPaged;
  }

  lemma EmptyPrefix()
    ensures IsPrefix([])
  {
  }

  lemma LastIsWhole(pages: seq<Page>)
    requires pages != [] && IsPrefix(pages) && pages[|pages| - 1].next.None?
    ensures IsTiled(pages)
  {
    var last := |pages| - 1;
    assert FactCount(pages) == FactCount(pages[..last]) + |pages[last].facts|;
  }

  /** While every page so far has a successor, no prefix of the replies is whole. */
  lemma NothingWholeYet(host: nat -> Receipt, fits: Receipt -> bool, i: nat)
    requires forall k :: 0 <= k < i ==> host(k).page.next.Some?
    ensures forall n: nat :: n <= i ==> !IsWhole(host, fits, n)
  {
    hide IsPrefix, FactCount, IsPaged;
    forall n: nat | n <= i ensures !IsWhole(host, fits, n) {
      if n > 0 { assert PagesOf(host, n)[n - 1] == host(n - 1).page; }
    }
  }

  lemma WholeEnds(host: nat -> Receipt, fits: Receipt -> bool, n: nat)
    requires IsWhole(host, fits, n)
    ensures n > 0 && host(n - 1).page.next.None? && forall k :: 0 <= k < n - 1 ==> host(k).page.next.Some?
  {
    hide FactCount, IsPaged;
    var pages := PagesOf(host, n);
    assert forall k :: 0 <= k < n ==> pages[k] == host(k).page;
  }

  lemma WholeUnique(host: nat -> Receipt, fits: Receipt -> bool, m: nat, n: nat)
    requires IsWhole(host, fits, m) && IsWhole(host, fits, n)
    ensures m == n
  {
    hide IsWhole;
    WholeEnds(host, fits, m);
    WholeEnds(host, fits, n);
  }

  predicate Continues(host: nat -> Receipt, i: nat) {
    && host(i).page.offset == FactCount(PagesOf(host, i))
    && (i > 0 ==> host(i).page.size == host(0).page.size && host(i).page.total == host(0).page.total)
  }

  /** A reply that does not fit ends all hope: it would be part of any longer scope. */
  lemma NothingWholePast(host: nat -> Receipt, fits: Receipt -> bool, i: nat)
    requires forall k :: 0 <= k < i ==> host(k).page.next.Some?
    requires !fits(host(i)) || !Continues(host, i)
    ensures forall n: nat :: !IsWhole(host, fits, n)
  {
    hide FactCount, IsPaged;
    NothingWholeYet(host, fits, i);
    forall n: nat | n > i ensures !IsWhole(host, fits, n) {
      var pages := PagesOf(host, n);
      assert pages[i] == host(i).page && pages[0] == host(0).page;
      assert pages[..i] == PagesOf(host, i);
    }
  }

  /** One more page of a scope that is not whole yet. */
  lemma CollectOne(host: nat -> Receipt, i: nat)
    requires IsPrefix(PagesOf(host, i)) && Continues(host, i) && IsPaged(host(i).page)
    requires i > 0 ==> host(i).page.scope == host(0).page.scope && host(i - 1).page.next.Some?
    ensures IsPrefix(PagesOf(host, i + 1)) && PagesOf(host, i + 1) == PagesOf(host, i) + [host(i).page]
    ensures host(i).page.next.None? ==> IsTiled(PagesOf(host, i + 1))
  {
    hide IsPrefix, IsPaged, FactCount, IsTiled;
    assert PagesOf(host, i + 1) == PagesOf(host, i) + [host(i).page];
    PrefixExtends(PagesOf(host, i), host(i).page);
    if host(i).page.next.None? { LastIsWhole(PagesOf(host, i + 1)); }
  }

  /** Collects a scope exactly when the host's replies make it up within 64 pages. */
  method CollectDeltaScope(sdk: Sdk, selector: Selector, anchor: Anchor, host: nat -> Receipt)
      returns (r: Result<seq<Page>, Failure>)
    ensures r.Ok? ==>
      && sdk.isSelector(selector) && |r.value| <= MAXIMUM_PAGES_PER_SCOPE && r.value == PagesOf(host, |r.value|)
      && AreEnvelopes(sdk, host, |r.value|) && AreBound(host, |r.value|, anchor, sdk.scopeOf(selector))
    ensures r.Err? ==> !sdk.isSelector(selector) || forall n: nat ::
      n <= MAXIMUM_PAGES_PER_SCOPE ==> !(AreEnvelopes(sdk, host, n) && AreBound(host, n, anchor, sdk.scopeOf(selector)))
  {
    hide IsPrefix, IsPaged, FactCount, IsBound, IsTiled, AreEnvelopes, AreBound;
    if !sdk.isSelector(selector) { return Err(InvalidSelector); }
    var scope := sdk.scopeOf(selector);
    ghost var fits := (reply: Receipt) => IsEnvelope(sdk, reply.page) && IsBound(reply, anchor, sdk.scopeOf(selector));
    forall n: nat
      ensures IsWhole(host, fits, n) <==> AreEnvelopes(sdk, host, n) && AreBound(host, n, anchor, sdk.scopeOf(selector))
    {
      WholeIsBoundTo(sdk, host, anchor, scope, n);
    }
    var pages: seq<Page> := [];
    EmptyPrefix();
    var i := 0;
    while i < MAXIMUM_PAGES_PER_SCOPE
      invariant 0 <= i <= MAXIMUM_PAGES_PER_SCOPE && pages == PagesOf(host, i) && IsPrefix(pages)
      invariant forall k :: 0 <= k < i ==> fits(host(k)) && host(k).page.next.Some?
    {
      var reply := host(i);
      if !IsEnvelope(sdk, reply.page) {
        NothingWholePast(host, fits, i);
        return Err(InvalidEnvelope);
      }
      if !IsBound(reply, anchor, scope) {
        NothingWholePast(host, fits, i);
        return Err(InvalidReceipt);
      }
      if reply.page.offset != FactCount(pages)
        || (|pages| > 0 && (reply.page.size != pages[0].size || reply.page.total != pages[0].total))
      {
        NothingWholePast(host, fits, i);
        return Err(NotContiguous);
      }
      if i > 0 {
        BoundScope(host(0), anchor, scope);
        BoundScope(reply, anchor, scope);
      }
      CollectOne(host, i);
      pages := pages + [reply.page];
      if reply.page.next.None? { return Ok(pages); }
      i := i + 1;
    }
    NothingWholeYet(host, fits, i);
    return Err(NotComplete);
  }

  lemma BoundScope(r: Receipt, anchor: Anchor, scope: Text)
    requires IsBound(r, anchor, scope)
    ensures r.page.scope == scope && r.page.fingerprint == anchor.fingerprint && r.page.session == anchor.session
  {
  }

  /** The first scope: its first page fixes the snapshot, the revision and the scope itself. */
  predicate IsFirstBound(r: Receipt, first: Receipt) {
    && r.identified && r.envelope == r.page.envelope && r.documentRevision == r.page.documentRevision
    && r.snapshotId == first.snapshotId && r.page.snapshot == first.page.snapshot && r.page.scope == first.page.scope
    && r.page.documentRevision == first.page.documentRevision
  }

  /** Collects the first scope exactly when the host's replies make up one observation within 64 pages. */
  method CollectFirstScope(sdk: Sdk, selector: Selector, host: nat -> Receipt) returns (r: Result<seq<Page>, Failure>)
    ensures r.Ok? ==>
      && sdk.isSelector(selector) && |r.value| <= MAXIMUM_PAGES_PER_SCOPE && r.value == PagesOf(host, |r.value|)
      && AreEnvelopes(sdk, host, |r.value|) && AreOneObservation(host, |r.value|)
    ensures r.Err? ==> !sdk.isSelector(selector) || forall n: nat ::
      n <= MAXIMUM_PAGES_PER_SCOPE ==> !(AreEnvelopes(sdk, host, n) && AreOneObservation(host, n))
  {
    hide IsPrefix, IsPaged, FactCount, IsFirstBound, IsTiled, AreEnvelopes, AreOneObservation;
    if !sdk.isSelector(selector) { return Err(InvalidSelector); }
    ghost var fits := (reply: Receipt) => IsEnvelope(sdk, reply.page) && IsFirstBound(reply, host(0));
    forall n: nat
      ensures IsWhole(host, fits, n) <==> AreEnvelopes(sdk, host, n) && AreOneObservation(host, n)
    {
      WholeIsObservation(sdk, host, n);
    }
    var pages: seq<Page> := [];
    EmptyPrefix();
    var first := host(0);
    var i := 0;
    while i < MAXIMUM_PAGES_PER_SCOPE
      invariant 0 <= i <= MAXIMUM_PAGES_PER_SCOPE && pages == PagesOf(host, i) && IsPrefix(pages)
      invariant forall k :: 0 <= k < i ==> fits(host(k)) && host(k).page.next.Some?
    {
      var reply := host(i);
      if !IsEnvelope(sdk, reply.page) || !IsFirstBound(reply, first) {
        NothingWholePast(host, fits, i);
        return Err(InvalidReceipt);
      }
      if reply.page.offset != FactCount(pages)
        || (|pages| > 0 && (reply.page.size != pages[0].size || reply.page.total != pages[0].total))
      {
        NothingWholePast(host, fits, i);
        return Err(NotContiguous);
      }
      FirstBoundScope(reply, first);
      CollectOne(host, i);
      pages := pages + [reply.page];
      if reply.page.next.None? { return Ok(pages); }
      i := i + 1;
    }
    NothingWholeYet(host, fits, i);
    return Err(NotComplete);
  }

  lemma FirstBoundScope(r: Receipt, first: Receipt)
    requires IsFirstBound(r, first)
    ensures r.page.scope == first.page.scope
  {
  }

  // ---- The retained set of scopes ----

  predicate PageLe(a: Page, b: Page) {
    if a.scope == b.scope then a.offset <= b.offset else TextLe(a.scope, b.scope)
  }

  const PAGE_ORDER := (a: Page, b: Page) => PageLe(a, b)
  const TEXT_ORDER := (a: Text, b: Text) => TextLe(a, b)

  lemma PageOrderTotal()
    ensures TotalPreorder(PAGE_ORDER)
  {
    hide TextLe;
    forall a: Page, b: Page ensures PAGE_ORDER(a, b) || PAGE_ORDER(b, a) {
      TextLeTotal(a.scope, b.scope);
    }
    forall a: Page, b: Page, c: Page | PAGE_ORDER(a, b) && PAGE_ORDER(b, c) ensures PAGE_ORDER(a, c) {
      if TextLe(a.scope, b.scope) && TextLe(b.scope, c.scope) { TextLeTransitive(a.scope, b.scope, c.scope); }
      if a.scope == c.scope && a.scope != b.scope { TextLeAntisymmetric(a.scope, b.scope); }
    }
  }

  lemma TextOrderTotal()
    ensures TotalPreorder(TEXT_ORDER)
  {
    hide TextLe;
    forall a: Text, b: Text ensures TEXT_ORDER(a, b) || TEXT_ORDER(b, a) { TextLeTotal(a, b); }
    forall a: Text, b: Text, c: Text | TEXT_ORDER(a, b) && TEXT_ORDER(b, c)
      ensures TEXT_ORDER(a, c)
    {
      TextLeTransitive(a, b, c);
    }
  }

  function ScopeSet(pages: seq<Page>): set<Text> { set p | p in pages :: p.scope }

  /** Enumerable.Distinct: the first occurrence of every scope. */
  function DistinctScopes(pages: seq<Page>): (r: seq<Text>)
    ensures Distinct(r) && forall s :: s in r <==> s in ScopeSet(pages)
  {
    if pages == [] then []
    else
      var front, last := pages[..|pages| - 1], pages[|pages| - 1];
      assert forall p :: p in pages <==> p in front || p == last;
      if last.scope in DistinctScopes(front) then DistinctScopes(front) else DistinctScopes(front) + [last.scope]
  }

  /** The retained scopes in ordinal order. */
  function Scopes(pages: seq<Page>): (r: seq<Text>)
    ensures Distinct(r) && SortedBy(r, TEXT_ORDER) && (forall s :: s in r <==> s in ScopeSet(pages))
  {
    TextOrderTotal();
    SortSorted(DistinctScopes(pages), TEXT_ORDER);
    DistinctMultiset(DistinctScopes(pages), Sort(DistinctScopes(pages), TEXT_ORDER));
    SameMembers(DistinctScopes(pages), Sort(DistinctScopes(pages), TEXT_ORDER));
    Sort(DistinctScopes(pages), TEXT_ORDER)
  }

  function InScope(scope: Text): Page -> bool { (p: Page) => p.scope == scope }

  function Of(pages: seq<Page>, scope: Text): seq<Page> { Filter(pages, InScope(scope)) }

  lemma TiledIsSorted(pages: seq<Page>)
    requires IsPrefix(pages)
    ensures SortedBy(pages, PAGE_ORDER)
  {
    hide TextLe, FactCount, IsPaged;
    forall i, j | 0 <= i < j < |pages| ensures PAGE_ORDER(pages[i], pages[j]) {
      PrefixFull(pages, i);
      PrefixFull(pages, j);
      SizePositive(pages);
      assert i * pages[0].size <= j * pages[0].size;
    }
  }

  lemma SizePositive(pages: seq<Page>)
    requires pages != [] && IsPrefix(pages)
    ensures pages[0].size >= 1
  {
  }

  /** Retained pages: in order, and whole scope by scope. */
  ghost predicate IsHeld(pages: seq<Page>) {
    && pages != [] && SortedBy(pages, PAGE_ORDER)
    && forall s :: s in ScopeSet(pages) ==> IsTiled(Of(pages, s))
  }

  function Merged(pages: seq<Page>, more: seq<Page>): seq<Page> { Sort(pages + more, PAGE_ORDER) }

  lemma MergedMembers(pages: seq<Page>, more: seq<Page>)
    ensures var all := Merged(pages, more);
      multiset(all) == multiset(pages) + multiset(more) && SortedBy(all, PAGE_ORDER) && forall p :: p in all <==>
        p in pages || p in more
  {
    hide PageLe, Sort;
    PageOrderTotal();
    SortSorted(pages + more, PAGE_ORDER);
    SameMembers(pages + more, Merged(pages, more));
  }

  lemma MergedOld(pages: seq<Page>, more: seq<Page>, s: Text)
    requires SortedBy(pages, PAGE_ORDER) && s !in ScopeSet(more)
    ensures Of(Merged(pages, more), s) == Of(pages, s)
  {
    hide PageLe, Sort, Filter;
    PageOrderTotal();
    FilterSort(pages + more, PAGE_ORDER, InScope(s));
    FilterConcat(pages, more, InScope(s));
    FilterNone(more, InScope(s));
    assert Of(pages, s) + [] == Of(pages, s);
    FilterSort(pages, PAGE_ORDER, InScope(s));
    SortedIsSort(pages, PAGE_ORDER);
  }

  lemma MergedNew(pages: seq<Page>, more: seq<Page>, s: Text)
    requires SortedBy(more, PAGE_ORDER) && s !in ScopeSet(pages) && forall p :: p in more ==> p.scope == s
    ensures Of(Merged(pages, more), s) == more
  {
    hide PageLe, Sort, Filter;
    PageOrderTotal();
    FilterSort(pages + more, PAGE_ORDER, InScope(s));
    FilterConcat(pages, more, InScope(s));
    FilterNone(pages, InScope(s));
    FilterAll(more, InScope(s));
    assert [] + more == more;
    SortedIsSort(more, PAGE_ORDER);
  }

  /** Adding a whole new scope keeps every old scope as it was. */
  lemma HeldGrows(pages: seq<Page>, more: seq<Page>, scope: Text)
    requires IsHeld(pages) && IsTiled(more) && scope !in ScopeSet(pages) && forall p :: p in more ==> p.scope == scope
    ensures var all := Merged(pages, more);
      && IsHeld(all) && ScopeSet(all) == ScopeSet(pages) + {scope} && multiset(all) == multiset(pages) + multiset(more)
      && Of(all, scope) == more && forall s :: s in ScopeSet(pages) ==> Of(all, s) == Of(pages, s)
  {
    hide PageLe, IsTiled, Sort, Merged, Of;
    var all := Merged(pages, more);
    MergedMembers(pages, more);
    NotEmptyTiled(more);
    assert more[0] in all && more[0].scope == scope;
    MergedNew(pages, more, scope);
    forall s | s in ScopeSet(pages) ensures Of(all, s) == Of(pages, s) {
      MergedOld(pages, more, s);
    }
  }

  /** The first scope alone is held. */
  lemma FirstScopeIsHeld(pages: seq<Page>)
    requires IsTiled(pages)
    ensures IsHeld(pages) && ScopeSet(pages) == {pages[0].scope} && |ScopeSet(pages)| == 1
  {
    hide FactCount, IsPaged;
    NotEmptyTiled(pages);
    assert pages[0] in pages;
    FilterAll(pages, InScope(pages[0].scope));
    assert ScopeSet(pages) == {pages[0].scope};
  }

  lemma NotEmptyTiled(pages: seq<Page>)
    requires IsTiled(pages)
    ensures pages != [] && SortedBy(pages, PAGE_ORDER)
  {
    TiledIsSorted(pages);
  }

  // ---- The retained observation and one turn ----

  function ScopeSetHash(sdk: Sdk, scopes: seq<Text>): Text {
    if |scopes| == 1 then scopes[0] else sdk.hashScopes(scopes)
  }

  class Retained {
    var selectors: seq<Selector>
    var pages: seq<Page>
    var scopeHash: Text
    var anchor: Anchor

    constructor (selector: Selector, pages: seq<Page>, anchor: Anchor)
      requires pages != []
      ensures this.selectors == [selector] && this.pages == pages && this.anchor == anchor
        && scopeHash == pages[0].scope
    {
      this.selectors, this.pages, this.anchor, this.scopeHash := [selector], pages, anchor, pages[0].scope;
    }
  }

  predicate IsKnownList(sdk: Sdk, known: seq<Text>) {
    && |known| <= 16 && (forall i :: 0 <= i < |known| ==> sdk.isHash(known[i]))
    && (forall i, j :: 0 <= i < j < |known| ==> known[i] != known[j]) && known == Sort(known, TEXT_ORDER)
  }

  /** A known list is at most 16 hashes in strictly ascending ordinal order. */
  lemma KnownListExactly(sdk: Sdk, known: seq<Text>)
    ensures IsKnownList(sdk, known) <==>
      && |known| <= 16 && (forall s :: s in known ==> sdk.isHash(s))
      && forall i, j :: 0 <= i < j < |known| ==> TextLe(known[i], known[j]) && known[i] != known[j]
  {
    hide TextLe, Sort;
    TextOrderTotal();
    if IsKnownList(sdk, known) {
      SortSorted(known, TEXT_ORDER);
      forall i, j | 0 <= i < j < |known| ensures TextLe(known[i], known[j]) && known[i] != known[j] {
        assert TEXT_ORDER(known[i], known[j]);
      }
    }
    if forall i, j :: 0 <= i < j < |known| ==> TextLe(known[i], known[j]) && known[i] != known[j] {
      SortedIsSort(known, TEXT_ORDER);
    }
  }

  /** ValidateFactRequest, then the comparison with the retained scopes. */
  function CheckRequest(sdk: Sdk, request: FactRequest, pages: seq<Page>): (r: Result<Text, Failure>)
    ensures r.Ok? <==> (&& sdk.isRequest(request) && sdk.isSelector(request.selector) && IsKnownList(sdk, request.known)
                        && request.known == Scopes(pages) && sdk.scopeOf(request.selector) !in ScopeSet(pages))
    ensures r.Ok? ==> r.value == sdk.scopeOf(request.selector)
  {
    if !sdk.isRequest(request) || !sdk.isSelector(request.selector) || !IsKnownList(sdk, request.known)
       || sdk.scopeOf(request.selector) in request.known then Err(InvalidRequest)
    else if Scopes(pages) != request.known then Err(ScopesDiffer)
    else if sdk.scopeOf(request.selector) in Scopes(pages) then Err(ScopeRepeated)
    else Ok(sdk.scopeOf(request.selector))
  }

  /** DynamicObservationDeltaPolicyV1.Hash, which leaves the hash itself out. */
  function HashOf(sdk: Sdk, d: Delta): Text { sdk.hashDelta(d.(hash := [])) }

  predicate SharesFirst(p: Page, first: Page) {
    && p.scope == first.scope && p.snapshot == first.snapshot && p.documentRevision == first.documentRevision
      && p.fingerprint == first.fingerprint
    && p.session == first.session && p.revision == first.revision && p.total == first.total && p.size == first.size
  }

  /** Whether the pages share their first one's bindings and each starts where the facts before it end. */
  method CheckPages(pages: seq<Page>) returns (ok: bool, count: nat)
    requires pages != []
    ensures ok <==> forall k :: 0 <= k < |pages| ==>
      SharesFirst(pages[k], pages[0]) && pages[k].offset == FactCount(pages[..k])
    ensures ok ==> count == FactCount(pages)
  {
    hide SharesFirst;
    count := 0;
    for i := 0 to |pages|
      invariant count == FactCount(pages[..i])
      invariant forall k :: 0 <= k < i ==> SharesFirst(pages[k], pages[0]) && pages[k].offset == FactCount(pages[..k])
    {
      if !SharesFirst(pages[i], pages[0]) || pages[i].offset != count { return false, count; }
      assert pages[..i + 1][..i] == pages[..i];
      count := count + |pages[i].facts|;
    }
    assert pages[..|pages|] == pages;
    ok := true;
  }

  /** DynamicObservationDeltaPolicyV1.Validate. */
  method ValidateDelta(sdk: Sdk, d: Delta) returns (ok: bool)
    ensures ok <==> IsDelta(sdk, d)
  {
    hide IsPaged, IsKnownList, FactCount, DELTA_SCHEMA, AreAlike;
    if d.schema != DELTA_SCHEMA || d.turn < 1 || d.turn >= MAXIMUM_TURNS || !sdk.isHash(d.requestHash)
      || !sdk.isHash(d.snapshot) || d.documentRevision < 0 || !sdk.isHash(d.scope)
    {
      return false;
    }
    if |d.known| < 1 || |d.known| >= MAXIMUM_TURNS || |d.known| != d.turn || !IsKnownList(sdk, d.known)
      || d.scope in d.known
    {
      return false;
    }
    if |d.pages| < 1 || |d.pages| > MAXIMUM_PAGES_PER_SCOPE
      || (exists i :: 0 <= i < |d.pages| && !IsEnvelope(sdk, d.pages[i]))
    {
      return false;
    }
    var first := d.pages[0];
    FirstOffset(d.pages);
    SharedIsAlike(d.pages);
    if first.scope != d.scope || first.snapshot != d.snapshot || first.documentRevision != d.documentRevision
      || first.offset != 0
    {
      return false;
    }
    var shared, expected := CheckPages(d.pages);
    if !shared { return false; }
    ok := expected == first.total && d.pages[|d.pages| - 1].next.None? && d.hash == HashOf(sdk, d);
  }

  lemma FirstOffset(pages: seq<Page>)
    requires pages != []
    ensures FactCount(pages[..0]) == 0
  {
  }

  ghost predicate IsDelta(sdk: Sdk, d: Delta) {
    && d.schema == DELTA_SCHEMA && d.hash == HashOf(sdk, d) && 1 <= d.turn < MAXIMUM_TURNS && sdk.isHash(d.requestHash)
      && sdk.isHash(d.snapshot) && d.documentRevision >= 0 && sdk.isHash(d.scope)
    && |d.known| == d.turn && IsKnownList(sdk, d.known) && d.scope !in d.known
    && 1 <= |d.pages| <= MAXIMUM_PAGES_PER_SCOPE && d.pages[|d.pages| - 1].next.None?
      && FactCount(d.pages) == d.pages[0].total
    && (forall k :: 0 <= k < |d.pages| ==>
          && IsPaged(d.pages[k]) && sdk.isEnvelope(d.pages[k]) && d.pages[k].offset == FactCount(d.pages[..k])
          && d.pages[k].scope == d.scope && d.pages[k].snapshot == d.snapshot
          && d.pages[k].documentRevision == d.documentRevision)
    && forall j, k :: 0 <= j < |d.pages| && 0 <= k < |d.pages| ==> AreAlike(d.pages[j], d.pages[k])
  }

  /** Two pages of one scope, snapshot, document, session and revision, cut alike. */
  ghost predicate AreAlike(a: Page, b: Page) {
    (a.scope, a.snapshot, a.documentRevision, a.fingerprint, a.session, a.revision, a.total, a.size)
      == (b.scope, b.snapshot, b.documentRevision, b.fingerprint, b.session, b.revision, b.total, b.size)
  }

  lemma SharedIsAlike(pages: seq<Page>)
    requires pages != []
    ensures (forall k :: 0 <= k < |pages| ==> SharesFirst(pages[k], pages[0])) <==>
      forall j, k :: 0 <= j < |pages| && 0 <= k < |pages| ==> AreAlike(pages[j], pages[k])
  {
    if forall j, k :: 0 <= j < |pages| && 0 <= k < |pages| ==> AreAlike(pages[j], pages[k]) {
      forall k | 0 <= k < |pages| ensures SharesFirst(pages[k], pages[0]) { assert AreAlike(pages[k], pages[0]); }
    }
  }

  /** A delta as one turn must send it: it names exactly the scopes held before it, and brings one new scope, whole. */
  ghost predicate IsTurn(sdk: Sdk, d: Delta, held: set<Text>, anchor: Anchor, request: FactRequest) {
    && IsDelta(sdk, d) && (forall s :: s in d.known <==> s in held) && d.scope !in held && IsTiled(d.pages)
    && d.scope == sdk.scopeOf(request.selector) && d.requestHash == request.hash
    && (forall p :: p in d.pages ==>
      p.scope == d.scope && p.fingerprint == anchor.fingerprint && p.session == anchor.session)
    && d.snapshot == anchor.snapshot && d.documentRevision == anchor.documentRevision
      && sdk.wireBytes(d) <= MAXIMUM_TRANSPORT_BYTES
  }

  function Sealed(sdk: Sdk, d: Delta): Delta { d.(hash := HashOf(sdk, d)) }

  function DeltaOf(sdk: Sdk, pages: seq<Page>, anchor: Anchor, request: FactRequest, turn: int, more: seq<Page>): Delta
  {
    Sealed(sdk, Delta(DELTA_SCHEMA, turn, request.hash, anchor.snapshot, anchor.documentRevision, Scopes(pages),
      sdk.scopeOf(request.selector), more, []))
  }

  /** The pages make up a delta that may be sent, and a context that holds together with what is retained. */
  ghost predicate CanRetain(sdk: Sdk, pages: seq<Page>, anchor: Anchor, request: FactRequest, turn: int,
      more: seq<Page>)
  {
    var d, all := DeltaOf(sdk, pages, anchor, request, turn, more), Merged(pages, more);
    IsDelta(sdk, d) && sdk.wireBytes(d) <= MAXIMUM_TRANSPORT_BYTES && sdk.isContext(all, ScopeSetHash(sdk, Scopes(all)))
  }

  /** The turn can be taken: the request is for one new scope, and the host delivers it whole. */
  ghost predicate CanTurn(sdk: Sdk, pages: seq<Page>, anchor: Anchor, request: FactRequest, turn: int,
      host: nat -> Receipt)
  {
    && CheckRequest(sdk, request, pages).Ok?
    && exists n: nat ::
         && n <= MAXIMUM_PAGES_PER_SCOPE && AreEnvelopes(sdk, host, n)
         && AreBound(host, n, anchor, sdk.scopeOf(request.selector))
         && CanRetain(sdk, pages, anchor, request, turn, PagesOf(host, n))
  }

  /** One turn succeeds exactly when it can be taken: nothing is retained unless the whole new scope is, and what
      was held stays. */
  method TakeTurn(sdk: Sdk, retained: Retained, request: FactRequest, turn: int, host: nat -> Receipt)
      returns (r: Result<Delta, Failure>)
    requires IsHeld(retained.pages)
    modifies retained
    ensures r.Ok? <==> CanTurn(sdk, old(retained.pages), retained.anchor, request, turn, host)
    ensures r.Ok? ==>
      (&& IsTurn(sdk, r.value, ScopeSet(old(retained.pages)), retained.anchor, request) && r.value.turn == turn
       && retained.pages == Merged(old(retained.pages), r.value.pages)
         && retained.selectors == old(retained.selectors) + [request.selector]
       && retained.scopeHash == ScopeSetHash(sdk, Scopes(retained.pages))
         && sdk.isContext(retained.pages, retained.scopeHash))
    ensures retained.anchor == old(retained.anchor)
  {
    hide IsHeld, IsTiled, AreEnvelopes, AreBound, Merged, IsKnownList, Scopes, CheckRequest, PagesOf;
    hide DELTA_SCHEMA, IsDelta;
    ghost var anchor, pages := retained.anchor, retained.pages;
    var scope := CheckRequest(sdk, request, retained.pages);
    if scope.Err? { return Err(scope.error); }
    var collected := CollectDeltaScope(sdk, request.selector, retained.anchor, host);
    if collected.Err? { return Err(collected.error); }
    var delta := DeltaOf(sdk, retained.pages, retained.anchor, request, turn, collected.value);
    TurnDecided(sdk, pages, anchor, request, turn, host, |collected.value|);
    var valid := ValidateDelta(sdk, delta);
    if !valid { return Err(InvalidDelta); }
    if sdk.wireBytes(delta) > MAXIMUM_TRANSPORT_BYTES { return Err(TooLarge); }
    WholeIsBound(sdk, host, retained.anchor, scope.value, |collected.value|);
    retained.selectors := retained.selectors + [request.selector];
    retained.pages := Merged(retained.pages, collected.value);
    retained.scopeHash := ScopeSetHash(sdk, Scopes(retained.pages));
    if !sdk.isContext(retained.pages, retained.scopeHash) { return Err(InvalidContext); }
    return Ok(delta);
  }

  /** The host's replies make up at most one scope, so the turn hangs on that one. */
  lemma TurnDecided(sdk: Sdk, pages: seq<Page>, anchor: Anchor, request: FactRequest, turn: int, host: nat -> Receipt,
      n: nat)
    requires CheckRequest(sdk, request, pages).Ok? && n <= MAXIMUM_PAGES_PER_SCOPE
    requires AreEnvelopes(sdk, host, n) && AreBound(host, n, anchor, sdk.scopeOf(request.selector))
    ensures CanTurn(sdk, pages, anchor, request, turn, host) <==>
      CanRetain(sdk, pages, anchor, request, turn, PagesOf(host, n))
  {
    hide AreEnvelopes, AreBound, CanRetain, CheckRequest, PagesOf;
    var scope := sdk.scopeOf(request.selector);
    if m: nat :|
      && m <= MAXIMUM_PAGES_PER_SCOPE && AreEnvelopes(sdk, host, m) && AreBound(host, m, anchor, scope)
      && CanRetain(sdk, pages, anchor, request, turn, PagesOf(host, m))
    {
      WholeIsBoundTo(sdk, host, anchor, scope, m);
      WholeIsBoundTo(sdk, host, anchor, scope, n);
      WholeUnique(host, (reply: Receipt) => IsEnvelope(sdk, reply.page) && IsBound(reply, anchor, scope), m, n);
    }
  }

  lemma WholeIsBound(sdk: Sdk, host: nat -> Receipt, anchor: Anchor, scope: Text, n: nat)
    requires AreEnvelopes(sdk, host, n) && AreBound(host, n, anchor, scope)
    ensures IsTiled(PagesOf(host, n))
    ensures forall p :: p in PagesOf(host, n) ==>
      p.scope == scope && p.fingerprint == anchor.fingerprint && p.session == anchor.session
  {
    hide IsTiled, IsPaged;
  }

  // ---- The loop ----

  /** The scopes held after some deltas. */
  ghost function HeldAfter(initial: set<Text>, sent: seq<Delta>): set<Text> {
    if sent == [] then initial else HeldAfter(initial, sent[..|sent| - 1]) + {sent[|sent| - 1].scope}
  }

  /** The pages retained after some deltas. */
  ghost function RetainedAfter(first: seq<Page>, sent: seq<Delta>): seq<Page> {
    if sent == [] then first else Merged(RetainedAfter(first, sent[..|sent| - 1]), sent[|sent| - 1].pages)
  }

  /** What the worker was sent: at turn i the delta for its own request, on top of exactly the scopes held by then. */
  ghost predicate IsExchange(sdk: Sdk, worker: nat -> Output, initial: set<Text>, anchor: Anchor, sent: seq<Delta>) {
    && |sent| < MAXIMUM_TURNS
    && forall i :: 0 <= i < |sent| ==>
         (&& worker(i).NeedsFacts? && worker(i).request.Some? && sent[i].turn == i + 1
          && IsTurn(sdk, sent[i], HeldAfter(initial, sent[..i]), anchor, worker(i).request.value))
  }

  /** The worker answered every turn under the identity of its first output. */
  ghost predicate KeepsIdentity(worker: nat -> Output, n: nat) {
    forall i :: 0 <= i <= n && !worker(i).Failed? ==> !worker(0).Failed? && worker(i).identity == worker(0).identity
  }

  /** What the loop keeps: the protocol so far, and that exactly what was sent is retained. */
  ghost predicate IsRetained(pages: seq<Page>, first: seq<Page>, sent: seq<Delta>) {
    IsHeld(pages) && ScopeSet(pages) == HeldAfter(ScopeSet(first), sent) && pages == RetainedAfter(first, sent)
  }

  /** Why a run broke off: the next turn could not be taken, or the worker came back as another program. */
  ghost predicate IsBroken(sdk: Sdk, worker: nat -> Output, hosts: nat -> nat -> Receipt, first: seq<Page>,
      anchor: Anchor, sent: seq<Delta>)
  {
    var output := worker(|sent|);
    || (!output.Failed? && !worker(0).Failed? && output.identity != worker(0).identity)
    || (output.NeedsFacts? && |sent| + 1 < MAXIMUM_TURNS
        && (output.request.Some? ==>
              !CanTurn(sdk, RetainedAfter(first, sent), anchor, output.request.value, |sent| + 1, hosts(|sent|))))
  }

  /** Runs the turns. However the worker and the host behave, what was sent and what is retained satisfy the protocol;
      a normal end means that the worker failed, finished, or asked for facts in its fifth output. */
  method RunFactTurns(sdk: Sdk, retained: Retained, worker: nat -> Output, hosts: nat -> nat -> Receipt)
      returns (end: Result<Output, Failure>, sent: seq<Delta>)
    requires IsHeld(retained.pages) && !worker(0).Failed?
    modifies retained
    ensures IsExchange(sdk, worker, ScopeSet(old(retained.pages)), retained.anchor, sent)
      && retained.anchor == old(retained.anchor)
    ensures end.Ok? ==>
      (&& IsRetained(retained.pages, old(retained.pages), sent)
       && |retained.selectors| == |old(retained.selectors)| + |sent|)
    ensures end.Err? ==> IsBroken(sdk, worker, hosts, old(retained.pages), retained.anchor, sent)
    ensures end.Ok? ==>
      && end.value == worker(|sent|) && KeepsIdentity(worker, |sent|)
      && (end.value.NeedsFacts? ==> |sent| + 1 == MAXIMUM_TURNS)
  {
    hide IsHeld, IsTurn, Merged, ScopeSet, IsExchange, IsRetained, IsTiled, IsEnvelope, IsDelta, HeldAfter;
    hide RetainedAfter, Scopes, CanTurn;
    sent := [];
    var turn := 0;
    var output := worker(0);
    var identity := output.identity;
    ghost var first := retained.pages;
    ghost var initial := ScopeSet(first);
    NothingSent(sdk, worker, retained.pages, retained.anchor);
    while output.NeedsFacts? && turn + 1 < MAXIMUM_TURNS
      invariant 0 <= turn < MAXIMUM_TURNS && turn == |sent| && output == worker(turn)
      invariant IsExchange(sdk, worker, initial, retained.anchor, sent) && retained.anchor == old(retained.anchor)
      invariant IsRetained(retained.pages, first, sent)
      invariant |retained.selectors| == |old(retained.selectors)| + |sent|
      invariant KeepsIdentity(worker, turn)
      decreases MAXIMUM_TURNS - turn
    {
      if output.request.None? { return Err(InvalidRequest), sent; }
      ghost var before := retained.pages;
      RetainedIsHeld(before, first, sent);
      var delta := TakeTurn(sdk, retained, output.request.value, turn + 1, hosts(turn));
      if delta.Err? { return Err(delta.error), sent; }
      TurnGrows(sdk, before, delta.value, retained.anchor, output.request.value, first, sent);
      ExchangeExtends(sdk, worker, initial, retained.anchor, sent, delta.value);
      sent := sent + [delta.value];
      turn := turn + 1;
      output := worker(turn);
      if output.Failed? { break; }
      if output.identity != identity { return Err(IdentityChanged), sent; }
    }
    return Ok(output), sent;
  }

  lemma NothingSent(sdk: Sdk, worker: nat -> Output, pages: seq<Page>, anchor: Anchor)
    requires IsHeld(pages)
    ensures IsExchange(sdk, worker, ScopeSet(pages), anchor, []) && IsRetained(pages, pages, [])
  {
    hide IsHeld, IsTurn, ScopeSet;
  }

  lemma RetainedIsHeld(pages: seq<Page>, first: seq<Page>, sent: seq<Delta>)
    requires IsRetained(pages, first, sent)
    ensures IsHeld(pages) && ScopeSet(pages) == HeldAfter(ScopeSet(first), sent) && pages == RetainedAfter(first, sent)
  {
    hide IsHeld, ScopeSet;
  }

  lemma TurnGrows(sdk: Sdk, pages: seq<Page>, d: Delta, anchor: Anchor, request: FactRequest, first: seq<Page>,
      sent: seq<Delta>)
    requires IsRetained(pages, first, sent) && IsTurn(sdk, d, ScopeSet(pages), anchor, request)
    ensures IsRetained(Merged(pages, d.pages), first, sent + [d])
  {
    hide IsHeld, IsTiled, Merged, IsDelta, ScopeSet;
    HeldGrows(pages, d.pages, d.scope);
    assert (sent + [d])[..|sent|] == sent;
  }

  lemma ExchangeExtends(sdk: Sdk, worker: nat -> Output, initial: set<Text>, anchor: Anchor, sent: seq<Delta>, d: Delta)
    requires IsExchange(sdk, worker, initial, anchor, sent) && |sent| + 1 < MAXIMUM_TURNS
    requires worker(|sent|).NeedsFacts? && worker(|sent|).request.Some? && d.turn == |sent| + 1
    requires IsTurn(sdk, d, HeldAfter(initial, sent), anchor, worker(|sent|).request.value)
    ensures IsExchange(sdk, worker, initial, anchor, sent + [d])
  {
    hide IsTurn, HeldAfter;
    var all := sent + [d];
    forall i | 0 <= i < |all|
      ensures worker(i).NeedsFacts? && worker(i).request.Some? && all[i].turn == i + 1
      ensures IsTurn(sdk, all[i], HeldAfter(initial, all[..i]), anchor, worker(i).request.value)
    {
      assert all[..i] == if i < |sent| then sent[..i] else sent;
    }
  }

  // ---- What an exchange means ----

  ghost predicate IsSent(sent: seq<Delta>, s: Text) { exists i :: 0 <= i < |sent| && sent[i].scope == s }

  lemma {:induction false} HeldAre(initial: set<Text>, sent: seq<Delta>)
    ensures forall s :: s in HeldAfter(initial, sent) <==> s in initial || IsSent(sent, s)
  {
    if sent != [] {
      var front, last := sent[..|sent| - 1], sent[|sent| - 1];
      HeldAre(initial, front);
      forall s ensures IsSent(sent, s) <==> last.scope == s || IsSent(front, s) {
        if i :| 0 <= i < |front| && front[i].scope == s { assert sent[i].scope == s; }
        if i :| 0 <= i < |sent| && sent[i].scope == s { assert i < |front| ==> front[i].scope == s; }
      }
    }
  }

  lemma NewScope(sdk: Sdk, worker: nat -> Output, initial: set<Text>, anchor: Anchor, sent: seq<Delta>, i: nat)
    requires IsExchange(sdk, worker, initial, anchor, sent) && i < |sent|
    ensures sent[i].scope !in HeldAfter(initial, sent[..i])
  {
    hide IsDelta, IsTiled, HeldAfter;
  }

  lemma {:induction false} HeldSize(sdk: Sdk, worker: nat -> Output, initial: set<Text>, anchor: Anchor,
      sent: seq<Delta>, n: nat)
    requires IsExchange(sdk, worker, initial, anchor, sent) && n <= |sent|
    ensures |HeldAfter(initial, sent[..n])| == |initial| + n
  {
    hide IsExchange;
    if n > 0 {
      HeldSize(sdk, worker, initial, anchor, sent, n - 1);
      NewScope(sdk, worker, initial, anchor, sent, n - 1);
      assert sent[..n][..n - 1] == sent[..n - 1];
    }
  }

  /** Every turn adds exactly one scope: no scope is sent twice, and none of them was held at first. */
  lemma ScopesStayDistinct(sdk: Sdk, worker: nat -> Output, initial: set<Text>, anchor: Anchor, sent: seq<Delta>)
    requires IsExchange(sdk, worker, initial, anchor, sent)
    ensures |HeldAfter(initial, sent)| == |initial| + |sent|
    ensures forall i :: 0 <= i < |sent| ==> sent[i].scope !in initial
    ensures forall i, j :: 0 <= i < j < |sent| ==> sent[i].scope != sent[j].scope
    ensures forall s :: s in HeldAfter(initial, sent) <==> s in initial || IsSent(sent, s)
  {
    hide IsExchange, HeldAfter;
    HeldSize(sdk, worker, initial, anchor, sent, |sent|);
    assert sent[..|sent|] == sent;
    HeldAre(initial, sent);
    forall i | 0 <= i < |sent| ensures sent[i].scope !in initial && forall j :: 0 <= j < i ==>
      sent[j].scope != sent[i].scope
    {
      NewScope(sdk, worker, initial, anchor, sent, i);
      HeldAre(initial, sent[..i]);
      var front := sent[..i];
      forall j | 0 <= j < i ensures sent[j].scope != sent[i].scope {
        assert front[j] == sent[j];
        assert IsSent(front, front[j].scope);
      }
    }
  }

  /** Nothing retained is lost or made up: after any turns, the retained pages are the first ones and those sent. */
  lemma {:induction false} RetainedIsAll(first: seq<Page>, sent: seq<Delta>)
    ensures forall p :: p in RetainedAfter(first, sent) <==>
      p in first || exists i :: 0 <= i < |sent| && p in sent[i].pages
  {
    hide Merged;
    if sent != [] {
      var front, last := sent[..|sent| - 1], sent[|sent| - 1];
      RetainedIsAll(first, front);
      MergedMembers(RetainedAfter(first, front), last.pages);
      forall p ensures (exists i :: 0 <= i < |sent| && p in sent[i].pages) <==>
        p in last.pages || exists i :: 0 <= i < |front| && p in front[i].pages
      {
        if i :| 0 <= i < |front| && p in front[i].pages { assert p in sent[i].pages; }
        if i :| 0 <= i < |sent| && p in sent[i].pages { assert i < |front| ==> p in front[i].pages; }
      }
    }
  }
}
