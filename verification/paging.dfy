/** The cursor, the pages a query yields, and the filter-aware page
    accumulator shared by the two goal-threshold listings. */
module Paging {
  import opened AttributeValues
  import opened KeyCodec
  import opened Records
  import opened SeqFacts

  newtype int32 = x: int | -0x8000_0000 <= x < 0x8000_0000

  /** The caller-held continuation state. A call returns it updated instead
      of mutating it; `lastEvaluatedKey == None` is Go's nil map. */
  datatype Cursor = Cursor(pageLimit: int32, lastEvaluatedKey: Option<AttrMap>, scanIndexForward: bool)

  /** One page the store returns: the items that passed the filter, their
      number as the store reports it, and the store's own resume key. */
  datatype Page = Page(items: seq<StatsRecord>, count: int, lastEvaluatedKey: Option<AttrMap>)

  datatype StoreError = LimitBelowOne | RequestFailed(reason: string)

  /** The outcome of asking the paginator for its next page. */
  datatype Fetch = Fetched(page: Page) | Failed(error: StoreError)

  /** What a cursor-driven listing hands back: the records, the cursor as
      the caller sees it afterwards, and the error if the call failed. */
  datatype Response = Response(records: seq<StatsRecord>, cursor: Cursor, error: Option<StoreError>)

  /** The store reports as `Count` the number of items it returns. */
  predicate CountsItems(fetches: seq<Fetch>)
  {
    forall k :: 0 <= k < |fetches| && fetches[k].Fetched? ==> fetches[k].page.count == |fetches[k].page.items|
  }

  /** The items of a run of pages, in page order. */
  function Flatten(pages: seq<Page>): seq<StatsRecord>
  {
    if |pages| == 0 then [] else pages[0].items + Flatten(pages[1..])
  }

  lemma FlattenCons(page: Page, later: seq<Page>)
    ensures Flatten([page] + later) == page.items + Flatten(later)
  {
    assert ([page] + later)[1..] == later;
  }

  lemma FlattenSingle(page: Page)
    ensures Flatten([page]) == page.items
  {
    assert [page][1..] == [];
  }

  function FirstFailure(fetches: seq<Fetch>): Option<StoreError>
  {
    if |fetches| == 0 then None
    else match fetches[0]
      case Failed(e) => Some(e)
      case Fetched(_) => FirstFailure(fetches[1..])
  }

  /** The pages a caller receives before the first failed fetch. */
  function Delivered(fetches: seq<Fetch>): (pages: seq<Page>)
    ensures |pages| <= |fetches|
    ensures |pages| == |fetches| <==> FirstFailure(fetches).None?
    ensures |pages| < |fetches| ==> fetches[|pages|] == Failed(FirstFailure(fetches).value)
  {
    if |fetches| == 0 then []
    else match fetches[0]
      case Failed(_) => []
      case Fetched(p) => [p] + Delivered(fetches[1..])
  }

  /** What one accumulating call returns, stated without the loop: with a
      budget of n, the first n items of the delivered pages and the resume
      key of the n-th; otherwise the first failure with nothing returned and
      the cursor untouched; otherwise every item and a nil key. */
  function AccumulateSpec(fetches: seq<Fetch>, c: Cursor, kind: IndexKind): Response
  {
    var all := Flatten(Delivered(fetches));
    var n := c.pageLimit as int;
    if n >= 1 && |all| >= n then
      Response(all[..n], c.(lastEvaluatedKey := Some(RecordKey(kind, all[n - 1]))), None)
    else
      match FirstFailure(fetches)
      case Some(e) => Response([], c, Some(e))
      case None => Response(all, c.(lastEvaluatedKey := None), None)
  }

  /** The facts one accumulating call guarantees, read off its reference:
      the cursor keeps its limit and direction; a failure returns nothing and
      leaves the cursor as it was; otherwise the records are an in-order
      prefix of the delivered items of at most the budget, and either the
      budget is exactly filled and the key is the resume key of the last
      record returned, or every page was delivered, every item is returned,
      fewer than the budget, and the key is nil. */
  lemma AccumulateSpecShape(fetches: seq<Fetch>, c: Cursor, kind: IndexKind)
    ensures var resp := AccumulateSpec(fetches, c, kind);
      && resp.cursor.pageLimit == c.pageLimit && resp.cursor.scanIndexForward == c.scanIndexForward
      && (resp.error.Some? ==> resp.records == [] && resp.cursor == c && FirstFailure(fetches).Some?)
      && (resp.error.None? ==> resp.records <= Flatten(Delivered(fetches)))
      && (resp.error.None? && c.pageLimit >= 1 ==> |resp.records| <= c.pageLimit as int)
      && (resp.error.None? && resp.cursor.lastEvaluatedKey.Some? ==>
            && c.pageLimit >= 1
            && |resp.records| == c.pageLimit as int
            && resp.cursor.lastEvaluatedKey == Some(RecordKey(kind, resp.records[c.pageLimit as int - 1])))
      && (resp.error.None? && resp.cursor.lastEvaluatedKey.None? ==>
            && FirstFailure(fetches).None?
            && resp.records == Flatten(Delivered(fetches))
            && (c.pageLimit >= 1 ==> |resp.records| < c.pageLimit as int))
  {
  }

  lemma FetchedStep(fetches: seq<Fetch>, i: nat)
    requires i < |fetches| && fetches[i].Fetched?
    ensures Flatten(Delivered(fetches[i..])) == fetches[i].page.items + Flatten(Delivered(fetches[i + 1..]))
    ensures FirstFailure(fetches[i..]) == FirstFailure(fetches[i + 1..])
  {
    var rest := fetches[i..];
    assert rest[0] == fetches[i] && rest[1..] == fetches[i + 1..];
    var d := Delivered(fetches[i + 1..]);
    assert Delivered(rest) == [fetches[i].page] + d;
    assert ([fetches[i].page] + d)[1..] == d;
  }

  lemma FailedStep(fetches: seq<Fetch>, i: nat)
    requires i < |fetches| && fetches[i].Failed?
    ensures Delivered(fetches[i..]) == []
    ensures FirstFailure(fetches[i..]) == Some(fetches[i].error)
  {
    assert fetches[i..][0] == fetches[i];
  }

  /** Cutting the budget inside a page cuts the whole run at the same place. */
  lemma CutInsidePage(collected: seq<StatsRecord>, items: seq<StatsRecord>, rest: seq<StatsRecord>, n: int)
    requires 0 <= |collected| < n <= |collected| + |items|
    ensures var all := collected + items + rest;
      && |all| >= n
      && all[..n] == collected + items[..n - |collected|]
      && all[n - 1] == items[n - |collected| - 1]
  {
    var all := collected + items + rest;
    assert all[..n] == (collected + items)[..n];
  }

  /** A page taken whole: the items collected so far and the rest still
      make up every delivered item. */
  lemma TakeWhole(fetches: seq<Fetch>, i: nat, collected: seq<StatsRecord>)
    requires i < |fetches| && fetches[i].Fetched?
    requires collected + Flatten(Delivered(fetches[i..])) == Flatten(Delivered(fetches))
    requires FirstFailure(fetches[i..]) == FirstFailure(fetches)
    ensures (collected + fetches[i].page.items) + Flatten(Delivered(fetches[i + 1..])) == Flatten(Delivered(fetches))
    ensures FirstFailure(fetches[i + 1..]) == FirstFailure(fetches)
  {
    FetchedStep(fetches, i);
    var items := fetches[i].page.items;
    var later := Flatten(Delivered(fetches[i + 1..]));
    Assoc(collected, items, later, Flatten(Delivered(fetches[i..])), Flatten(Delivered(fetches)));
  }

  /** The page in which the budget fills: the reference returns the first
      n items and the resume key of the n-th. */
  lemma TakeCut(fetches: seq<Fetch>, i: nat, collected: seq<StatsRecord>, c: Cursor, kind: IndexKind)
    requires i < |fetches| && fetches[i].Fetched?
    requires collected + Flatten(Delivered(fetches[i..])) == Flatten(Delivered(fetches))
    requires |collected| < c.pageLimit as int <= |collected| + |fetches[i].page.items|
    ensures var items := fetches[i].page.items;
      var pending := c.pageLimit as int - |collected|;
      AccumulateSpec(fetches, c, kind)
        == Response(collected + items[..pending], c.(lastEvaluatedKey := Some(RecordKey(kind, items[pending - 1]))), None)
  {
    var items := fetches[i].page.items;
    var n := c.pageLimit as int;
    FetchedStep(fetches, i);
    var later := Flatten(Delivered(fetches[i + 1..]));
    Assoc(collected, items, later, Flatten(Delivered(fetches[i..])), Flatten(Delivered(fetches)));
    CutInsidePage(collected, items, later, n);
    SpecAtCut(fetches, c, kind, collected + items[..n - |collected|], items[n - |collected| - 1]);
  }

  /** A failed fetch before the budget fills: the reference reports it. */
  lemma TakeFailure(fetches: seq<Fetch>, i: nat, collected: seq<StatsRecord>, c: Cursor, kind: IndexKind)
    requires i < |fetches| && fetches[i].Failed?
    requires collected + Flatten(Delivered(fetches[i..])) == Flatten(Delivered(fetches))
    requires FirstFailure(fetches[i..]) == FirstFailure(fetches)
    requires c.pageLimit < 1 || |collected| < c.pageLimit as int
    ensures AccumulateSpec(fetches, c, kind) == Response([], c, Some(fetches[i].error))
  {
    FailedStep(fetches, i);
    assert Flatten(Delivered(fetches[i..])) == [];
    assert collected == Flatten(Delivered(fetches));
    SpecAtFailure(fetches, c, kind, fetches[i].error);
  }

  /** Every page taken whole: the reference returns every item and no key. */
  lemma TakeEnd(fetches: seq<Fetch>, i: nat, collected: seq<StatsRecord>, c: Cursor, kind: IndexKind)
    requires i == |fetches|
    requires collected + Flatten(Delivered(fetches[i..])) == Flatten(Delivered(fetches))
    requires FirstFailure(fetches[i..]) == FirstFailure(fetches)
    requires c.pageLimit < 1 || |collected| < c.pageLimit as int
    ensures AccumulateSpec(fetches, c, kind) == Response(collected, c.(lastEvaluatedKey := None), None)
  {
    var none := fetches[i..];
    EmptyRun(none);
    AppendEmpty(collected, Flatten(Delivered(none)), Flatten(Delivered(fetches)));
    SpecAtEnd(fetches, c, kind);
  }

  lemma EmptyRun(fetches: seq<Fetch>)
    requires |fetches| == 0
    ensures Flatten(Delivered(fetches)) == [] && FirstFailure(fetches) == None
  {
  }

  lemma SpecAtCut(fetches: seq<Fetch>, c: Cursor, kind: IndexKind, taken: seq<StatsRecord>, last: StatsRecord)
    requires c.pageLimit >= 1
    requires var all := Flatten(Delivered(fetches));
      |all| >= c.pageLimit as int && all[..c.pageLimit as int] == taken && all[c.pageLimit as int - 1] == last
    ensures AccumulateSpec(fetches, c, kind) == Response(taken, c.(lastEvaluatedKey := Some(RecordKey(kind, last))), None)
  {
  }

  lemma SpecAtFailure(fetches: seq<Fetch>, c: Cursor, kind: IndexKind, e: StoreError)
    requires c.pageLimit < 1 || |Flatten(Delivered(fetches))| < c.pageLimit as int
    requires FirstFailure(fetches) == Some(e)
    ensures AccumulateSpec(fetches, c, kind) == Response([], c, Some(e))
  {
  }

  lemma SpecAtEnd(fetches: seq<Fetch>, c: Cursor, kind: IndexKind)
    requires c.pageLimit < 1 || |Flatten(Delivered(fetches))| < c.pageLimit as int
    requires FirstFailure(fetches) == None
    ensures AccumulateSpec(fetches, c, kind) == Response(Flatten(Delivered(fetches)), c.(lastEvaluatedKey := None), None)
  {
  }

  /** The accumulation loop of the two goal-threshold listings; `kind` picks
      the resume-key builder. The precondition excludes exactly the inputs on
      which the loop would slice or index with a negative bound: a limit
      below one together with a first page that arrives. */
  method Accumulate(fetches: seq<Fetch>, c: Cursor, kind: IndexKind) returns (resp: Response)
    requires CountsItems(fetches)
    requires c.pageLimit >= 1 || |fetches| == 0 || fetches[0].Failed?
    ensures resp == AccumulateSpec(fetches, c, kind)
  {
    var collected: seq<StatsRecord> := [];
    var i := 0;
    while i < |fetches|
      invariant 0 <= i <= |fetches|
      invariant collected + Flatten(Delivered(fetches[i..])) == Flatten(Delivered(fetches))
      invariant FirstFailure(fetches[i..]) == FirstFailure(fetches)
      invariant c.pageLimit >= 1 ==> |collected| < c.pageLimit as int
      invariant c.pageLimit < 1 ==> i == 0
    {
      if fetches[i].Failed? {
        TakeFailure(fetches, i, collected, c, kind);
        return Response([], c, Some(fetches[i].error));
      }
      var page := fetches[i].page;
      assert page.count == |page.items|;
      var pending := c.pageLimit as int - |collected|;
      if page.count >= pending {
        TakeCut(fetches, i, collected, c, kind);
        return Response(collected + page.items[..pending], c.(lastEvaluatedKey := Some(RecordKey(kind, page.items[pending - 1]))), None);
      }
      TakeWhole(fetches, i, collected);
      collected := collected + page.items;
      i := i + 1;
    }
    TakeEnd(fetches, i, collected, c, kind);
    resp := Response(collected, c.(lastEvaluatedKey := None), None);
  }

  /** What a draining listing hands back: every record, or the error. */
  datatype Listing = Listing(records: seq<StatsRecord>, error: Option<StoreError>)

  /** The loop of the full listing: take every page until there are no more,
      giving up with nothing on the first failure. */
  method DrainAll(fetches: seq<Fetch>) returns (result: Listing)
    ensures result.error == FirstFailure(fetches)
    ensures result.error.None? ==> result.records == Flatten(Delivered(fetches))
    ensures result.error.Some? ==> result.records == []
  {
    var collected: seq<StatsRecord> := [];
    var i := 0;
    while i < |fetches|
      invariant 0 <= i <= |fetches|
      invariant collected + Flatten(Delivered(fetches[i..])) == Flatten(Delivered(fetches))
      invariant FirstFailure(fetches[i..]) == FirstFailure(fetches)
    {
      match fetches[i]
      case Failed(e) =>
        FailedStep(fetches, i);
        return Listing([], Some(e));
      case Fetched(page) =>
        FetchedStep(fetches, i);
        collected := collected + page.items;
        i := i + 1;
    }
    assert fetches[i..] == [];
    result := Listing(collected, None);
  }

  /** The single bounded fetch of the limited listing: the page's items, and
      the store's resume key copied into the cursor as it is. */
  function LimitedResponse(fetch: Fetch, c: Cursor): (resp: Response)
    ensures resp.error.Some? <==> fetch.Failed?
    ensures fetch.Failed? ==> resp == Response([], c, Some(fetch.error))
    ensures fetch.Fetched? ==> resp.records == fetch.page.items
    ensures resp.cursor.pageLimit == c.pageLimit && resp.cursor.scanIndexForward == c.scanIndexForward
    ensures fetch.Fetched? ==> resp.cursor.lastEvaluatedKey == fetch.page.lastEvaluatedKey
  {
    match fetch
    case Failed(e) => Response([], c, Some(e))
    case Fetched(page) => Response(page.items, c.(lastEvaluatedKey := page.lastEvaluatedKey), None)
  }
}
