/** A model of the store's query behaviour, the part the listings rely on:
    the key condition picks the rows of one index in key order (reversed
    when scanning backwards); `Limit` and the response-size cap bound the
    rows read per request BEFORE the filter; the filter then drops rows, and
    `Count` is the number that remain; a request that stops at its bound
    reports the key of the last row it read; `ExclusiveStartKey` resumes
    strictly after the row with that key. */
module Store {
  import opened AttributeValues
  import opened KeyCodec
  import opened Records
  import opened QueryPlans
  import opened Paging
  import opened SeqFacts

  type Positive = n: int | n >= 1 witness 1

  /** The rows of the table and of the goals index, each in its ascending
      key order, and how many rows fit into one response. */
  datatype Table = Table(primary: seq<StatsRecord>, gsi1: seq<StatsRecord>, maxRows: Positive)

  /** The parts of a query request the listings set. */
  datatype QueryInput = QueryInput(
    plan: Plan,
    limit: Option<int>,
    exclusiveStartKey: Option<AttrMap>,
    scanIndexForward: bool)

  /** No two rows share a primary key. */
  predicate Distinct(rows: seq<StatsRecord>)
  {
    forall i, j :: 0 <= i < j < |rows| ==> Id(rows[i]) != Id(rows[j])
  }

  /** Within one partition, the goals index holds its rows in ascending
      order of `goals`. */
  predicate GoalsOrdered(rows: seq<StatsRecord>)
  {
    forall i, j :: 0 <= i < j < |rows| && rows[i].partitionKey == rows[j].partitionKey ==> rows[i].goals <= rows[j].goals
  }

  /** No repeated primary key; the goals index holds the same rows as the
      table (every record carries the index's key attributes), in its own
      order. */
  predicate ValidTable(t: Table)
  {
    && Distinct(t.primary) && Distinct(t.gsi1)
    && multiset(t.gsi1) == multiset(t.primary)
    && GoalsOrdered(t.gsi1)
  }

  function IndexRows(t: Table, kind: IndexKind): seq<StatsRecord>
  {
    match kind
    case Primary => t.primary
    case Gsi1 => t.gsi1
  }

  /** The rows that pass `keep`, in their original order. */
  function Select(rows: seq<StatsRecord>, keep: StatsRecord -> bool): (kept: seq<StatsRecord>)
    ensures |kept| <= |rows|
  {
    if |rows| == 0 then []
    else if keep(rows[0]) then [rows[0]] + Select(rows[1..], keep)
    else Select(rows[1..], keep)
  }

  function KeyTest(c: KeyCondition): StatsRecord -> bool
  {
    r => KeyMatches(c, r)
  }

  function FilterTest(f: Option<Filter>): StatsRecord -> bool
  {
    r => FilterMatches(f, r)
  }

  function Reverse(s: seq<StatsRecord>): (r: seq<StatsRecord>)
    ensures |r| == |s|
    ensures forall i :: 0 <= i < |s| ==> r[i] == s[|s| - 1 - i]
  {
    seq(|s|, i requires 0 <= i < |s| => s[|s| - 1 - i])
  }

  lemma ReverseMembers(s: seq<StatsRecord>, x: StatsRecord)
    ensures x in Reverse(s) <==> x in s
  {
    var r := Reverse(s);
    if x in s {
      var i :| 0 <= i < |s| && s[i] == x;
      assert r[|s| - 1 - i] == x;
    }
    if x in r {
      var i :| 0 <= i < |r| && r[i] == x;
      assert s[|s| - 1 - i] == x;
    }
  }

  /** A valid table repeats no primary key on either index. */
  lemma ValidIndexDistinct(t: Table, kind: IndexKind)
    requires ValidTable(t)
    ensures Distinct(IndexRows(t, kind))
  {
  }

  /** The rows a query reads, in the order it reads them. */
  function View(t: Table, plan: Plan, forward: bool): seq<StatsRecord>
  {
    var matched := Select(IndexRows(t, plan.index), KeyTest(plan.keyCondition));
    if forward then matched else Reverse(matched)
  }

  /** How many rows one request reads at most: its `Limit`, capped by what
      fits into one response. */
  function PageSize(t: Table, input: QueryInput): (size: Positive)
    requires input.limit.None? || input.limit.value >= 1
    ensures size <= t.maxRows
    ensures input.limit.Some? ==> size <= input.limit.value
    ensures size == t.maxRows || (input.limit.Some? && size == input.limit.value)
  {
    match input.limit
    case None => t.maxRows
    case Some(l) => if l < t.maxRows then l else t.maxRows
  }

  /** The request the paginator actually sends: it passes `Limit` on only
      when it is positive, and leaves it out otherwise. */
  function PaginatorInput(input: QueryInput): (sent: QueryInput)
    ensures sent.limit.None? || sent.limit.value >= 1
    ensures input.limit.Some? && input.limit.value >= 1 ==> sent == input
    ensures sent == input.(limit := sent.limit)
    ensures input.limit.Some? && input.limit.value < 1 ==> sent.limit.None?
  {
    if input.limit.Some? && input.limit.value < 1 then input.(limit := None) else input
  }

  /** The position of the first row whose resume key is `key`. */
  function FindKey(view: seq<StatsRecord>, kind: IndexKind, key: AttrMap): (found: Option<nat>)
    ensures found.Some? ==> found.value < |view| && RecordKey(kind, view[found.value]) == key
  {
    if |view| == 0 then None
    else if RecordKey(kind, view[0]) == key then Some(0)
    else match FindKey(view[1..], kind, key)
      case None => None
      case Some(i) => Some(i + 1)
  }

  /** A row whose resume key is `key` is always found. */
  lemma {:induction false} FindKeyFinds(view: seq<StatsRecord>, kind: IndexKind, q: nat)
    requires q < |view|
    ensures FindKey(view, kind, RecordKey(kind, view[q])).Some?
    decreases |view|
  {
    if q > 0 && RecordKey(kind, view[0]) != RecordKey(kind, view[q]) {
      assert view[1..][q - 1] == view[q];
      FindKeyFinds(view[1..], kind, q - 1);
    }
  }

  /** Where a request starts reading: at the front without a start key, just
      after the row with that key otherwise. A key that names no row is
      taken to lie past the end. */
  function StartAfter(view: seq<StatsRecord>, kind: IndexKind, key: Option<AttrMap>): (p: nat)
    ensures p <= |view|
  {
    match key
    case None => 0
    case Some(k) =>
      match FindKey(view, kind, k)
      case Some(i) => i + 1
      case None => |view|
  }

  /** The kept rows after the start key, in reading order. */
  function Ahead(view: seq<StatsRecord>, kind: IndexKind, keep: StatsRecord -> bool, key: Option<AttrMap>): seq<StatsRecord>
  {
    Select(view[StartAfter(view, kind, key)..], keep)
  }

  /** The page one request returns when it starts reading at `p`. */
  function PageAt(view: seq<StatsRecord>, plan: Plan, size: Positive, p: nat): (page: Page)
    requires p <= |view|
    ensures page.count == |page.items| && |page.items| <= size
    ensures page.lastEvaluatedKey.Some? <==> p + size <= |view|
  {
    var full := p + size <= |view|;
    var scanned := if full then view[p..p + size] else view[p..];
    var items := Select(scanned, FilterTest(plan.filter));
    Page(items, |items|, if full then Some(RecordKey(plan.index, view[p + size - 1])) else None)
  }

  /** The pages the paginator yields from `p` on: it asks again, from the
      reported key, for as long as a page reports one. */
  function PagesFrom(view: seq<StatsRecord>, plan: Plan, size: Positive, p: nat): (pages: seq<Page>)
    requires p <= |view|
    ensures |pages| >= 1
    ensures forall k :: 0 <= k < |pages| ==> pages[k].count == |pages[k].items|
    decreases |view| - p
  {
    var page := PageAt(view, plan, size, p);
    if p + size <= |view| then [page] + PagesFrom(view, plan, size, p + size) else [page]
  }

  function AsFetches(pages: seq<Page>): (fetches: seq<Fetch>)
    ensures |fetches| == |pages|
    ensures forall k :: 0 <= k < |pages| ==> fetches[k] == Fetched(pages[k])
  {
    seq(|pages|, k requires 0 <= k < |pages| => Fetched(pages[k]))
  }

  /** What the paginator yields for a request: a `Limit` below one is not
      sent at all, so only the response-size cap bounds its pages. */
  function Paginate(t: Table, input: QueryInput): (fetches: seq<Fetch>)
    ensures |fetches| >= 1
    ensures CountsItems(fetches)
  {
    var sent := PaginatorInput(input);
    var view := View(t, sent.plan, sent.scanIndexForward);
    AsFetches(PagesFrom(view, sent.plan, PageSize(t, sent), StartAfter(view, sent.plan.index, sent.exclusiveStartKey)))
  }

  /** A single query request sent directly: the store refuses a `Limit`
      below one; otherwise it answers with the paginator's first page. */
  function QueryOnce(t: Table, input: QueryInput): (fetch: Fetch)
    ensures fetch.Failed? <==> input.limit.Some? && input.limit.value < 1
    ensures fetch.Failed? ==> fetch.error == LimitBelowOne
    ensures fetch.Fetched? ==> fetch == Paginate(t, input)[0]
  {
    if input.limit.Some? && input.limit.value < 1 then Failed(LimitBelowOne)
    else Paginate(t, input)[0]
  }

  /** The request a cursor-driven listing sends: the cursor's budget as
      `Limit`, its key as `ExclusiveStartKey` when there is one, and its
      direction. */
  function CursorInput(plan: Plan, c: Cursor): (input: QueryInput)
    ensures input.plan == plan && input.limit == Some(c.pageLimit as int)
    ensures input.exclusiveStartKey.Some? <==> c.lastEvaluatedKey.Some?
    ensures input.exclusiveStartKey.Some? ==> input.exclusiveStartKey.value == c.lastEvaluatedKey.value
    ensures input.scanIndexForward == c.scanIndexForward
  {
    QueryInput(plan, Some(c.pageLimit as int), c.lastEvaluatedKey, c.scanIndexForward)
  }

  // ---------------------------------------------------------------------
  // Facts about the model

  /** The first page the paginator yields for a request with a usable
      limit. */
  lemma PaginateFirst(t: Table, input: QueryInput)
    requires input.limit.None? || input.limit.value >= 1
    ensures var view := View(t, input.plan, input.scanIndexForward);
      Paginate(t, input)[0]
        == Fetched(PageAt(view, input.plan, PageSize(t, input), StartAfter(view, input.plan.index, input.exclusiveStartKey)))
  {
    assert PaginatorInput(input) == input;
  }

  lemma {:induction false} SelectAppend(a: seq<StatsRecord>, b: seq<StatsRecord>, keep: StatsRecord -> bool)
    ensures Select(a + b, keep) == Select(a, keep) + Select(b, keep)
    decreases |a|
  {
    if |a| == 0 {
      assert a + b == b;
    } else {
      assert (a + b)[0] == a[0];
      assert (a + b)[1..] == a[1..] + b;
      SelectAppend(a[1..], b, keep);
      if keep(a[0]) {
        assert [a[0]] + (Select(a[1..], keep) + Select(b, keep))
            == ([a[0]] + Select(a[1..], keep)) + Select(b, keep);
      }
    }
  }

  /** Every kept row is a row that passes the test. */
  lemma {:induction false} SelectedRow(rows: seq<StatsRecord>, keep: StatsRecord -> bool, x: StatsRecord)
    requires x in Select(rows, keep)
    ensures x in rows && keep(x)
    decreases |rows|
  {
    if x != rows[0] || !keep(rows[0]) {
      SelectedRow(rows[1..], keep, x);
    }
  }

  /** Every row that passes the test is kept. */
  lemma {:induction false} SelectKeeps(rows: seq<StatsRecord>, keep: StatsRecord -> bool, x: StatsRecord)
    requires x in rows && keep(x)
    ensures x in Select(rows, keep)
    decreases |rows|
  {
    if x != rows[0] {
      assert x in rows[1..];
      SelectKeeps(rows[1..], keep, x);
    }
  }

  lemma {:induction false} SelectKeepsAll(rows: seq<StatsRecord>, keep: StatsRecord -> bool)
    requires forall x :: x in rows ==> keep(x)
    ensures Select(rows, keep) == rows
    decreases |rows|
  {
    if |rows| > 0 {
      assert rows[0] in rows;
      assert forall x :: x in rows[1..] ==> x in rows;
      SelectKeepsAll(rows[1..], keep);
    }
  }

  /** A relation that holds between every earlier and every later row. */
  predicate Pairwise(rows: seq<StatsRecord>, rel: (StatsRecord, StatsRecord) -> bool)
  {
    forall i, j :: 0 <= i < j < |rows| ==> rel(rows[i], rows[j])
  }

  /** Dropping rows keeps every pairwise relation of the rows that stay. */
  lemma {:induction false} SelectPairwise(rows: seq<StatsRecord>, keep: StatsRecord -> bool, rel: (StatsRecord, StatsRecord) -> bool)
    requires Pairwise(rows, rel)
    ensures Pairwise(Select(rows, keep), rel)
    decreases |rows|
  {
    if |rows| > 0 {
      var tail := rows[1..];
      assert Pairwise(tail, rel) by {
        forall i, j | 0 <= i < j < |tail| ensures rel(tail[i], tail[j]) {
          assert tail[i] == rows[i + 1] && tail[j] == rows[j + 1];
        }
      }
      SelectPairwise(tail, keep, rel);
      if keep(rows[0]) {
        var rest := Select(tail, keep);
        var kept := [rows[0]] + rest;
        forall i, j | 0 <= i < j < |kept| ensures rel(kept[i], kept[j]) {
          if i == 0 {
            assert kept[j] == rest[j - 1];
            SelectedRow(tail, keep, rest[j - 1]);
            var k :| 0 <= k < |tail| && tail[k] == rest[j - 1];
            assert tail[k] == rows[k + 1];
          } else {
            assert kept[i] == rest[i - 1] && kept[j] == rest[j - 1];
          }
        }
      }
    }
  }

  lemma SelectDistinct(rows: seq<StatsRecord>, keep: StatsRecord -> bool)
    requires Distinct(rows)
    ensures Distinct(Select(rows, keep))
  {
    var rel := (a: StatsRecord, b: StatsRecord) => Id(a) != Id(b);
    SelectPairwise(rows, keep, rel);
  }

  lemma ViewDistinct(t: Table, plan: Plan, forward: bool)
    requires Distinct(IndexRows(t, plan.index))
    ensures Distinct(View(t, plan, forward))
  {
    var matched := Select(IndexRows(t, plan.index), KeyTest(plan.keyCondition));
    SelectDistinct(IndexRows(t, plan.index), KeyTest(plan.keyCondition));
    if !forward {
      var r := Reverse(matched);
      forall i, j | 0 <= i < j < |r| ensures Id(r[i]) != Id(r[j]) {
        assert r[i] == matched[|matched| - 1 - i] && r[j] == matched[|matched| - 1 - j];
      }
    }
  }

  /** In a view without repeated keys, the resume key of a row leads back
      to just after that row. */
  lemma ResumeAfterRow(view: seq<StatsRecord>, kind: IndexKind, q: nat)
    requires Distinct(view) && q < |view|
    ensures StartAfter(view, kind, Some(RecordKey(kind, view[q]))) == q + 1
  {
    var found := FindKey(view, kind, RecordKey(kind, view[q]));
    FindKeyFinds(view, kind, q);
    var i := found.value;
    RecordKeyIdentifies(kind, view[i], view[q]);
    assert i == q;
  }

  /** The paginator's pages, taken together, are the filtered rows from
      where it starts, in order. */
  lemma {:induction false} PagesFlatten(view: seq<StatsRecord>, plan: Plan, size: Positive, p: nat)
    requires p <= |view|
    ensures Flatten(PagesFrom(view, plan, size, p)) == Select(view[p..], FilterTest(plan.filter))
    decreases |view| - p
  {
    var keep := FilterTest(plan.filter);
    var page := PageAt(view, plan, size, p);
    if p + size <= |view| {
      var later := PagesFrom(view, plan, size, p + size);
      assert PagesFrom(view, plan, size, p) == [page] + later;
      FlattenCons(page, later);
      PagesFlatten(view, plan, size, p + size);
      assert page.items == Select(view[p..p + size], keep);
      SplitAt(view, p, p + size);
      SelectAppend(view[p..p + size], view[p + size..], keep);
    } else {
      assert PagesFrom(view, plan, size, p) == [page];
      FlattenSingle(page);
      assert page.items == Select(view[p..], keep);
    }
  }

  lemma {:induction false} DeliveredAll(pages: seq<Page>)
    ensures FirstFailure(AsFetches(pages)) == None
    ensures Delivered(AsFetches(pages)) == pages
    decreases |pages|
  {
    var fetches := AsFetches(pages);
    if |pages| > 0 {
      assert fetches[1..] == AsFetches(pages[1..]);
      DeliveredAll(pages[1..]);
      assert fetches[0] == Fetched(pages[0]);
      assert [pages[0]] + pages[1..] == pages;
    }
  }

  /** Nothing fails, whatever the limit, and the items delivered are the
      filtered rows after the start key, in reading order. */
  lemma PaginateDelivers(t: Table, input: QueryInput)
    ensures var view := View(t, input.plan, input.scanIndexForward);
      var p := StartAfter(view, input.plan.index, input.exclusiveStartKey);
      && FirstFailure(Paginate(t, input)) == None
      && Flatten(Delivered(Paginate(t, input))) == Select(view[p..], FilterTest(input.plan.filter))
  {
    var view := View(t, input.plan, input.scanIndexForward);
    var p := StartAfter(view, input.plan.index, input.exclusiveStartKey);
    var sent := PaginatorInput(input);
    var pages := PagesFrom(view, input.plan, PageSize(t, sent), p);
    DeliveredAll(pages);
    PagesFlatten(view, input.plan, PageSize(t, sent), p);
  }

  /** Where the n-th kept row sits: the rows up to it yield exactly the
      first n kept rows, and the rows after it yield the rest. */
  lemma {:induction false} SelectCut(rows: seq<StatsRecord>, keep: StatsRecord -> bool, n: int) returns (q: nat)
    requires 1 <= n <= |Select(rows, keep)|
    ensures q < |rows|
    ensures rows[q] == Select(rows, keep)[n - 1]
    ensures Select(rows[q + 1..], keep) == Select(rows, keep)[n..]
    decreases |rows|
  {
    var tail := rows[1..];
    if keep(rows[0]) && n == 1 {
      q := 0;
    } else {
      var m := if keep(rows[0]) then n - 1 else n;
      var q' := SelectCut(tail, keep, m);
      q := q' + 1;
      assert rows[q + 1..] == tail[q' + 1..];
    }
  }

  /** Resuming from the resume key of the n-th kept row ahead moves the
      start forward and leaves exactly the kept rows after the first n. */
  lemma CutResumes(view: seq<StatsRecord>, kind: IndexKind, keep: StatsRecord -> bool, key: Option<AttrMap>, n: int)
    requires Distinct(view)
    requires 1 <= n <= |Ahead(view, kind, keep, key)|
    ensures var next := Some(RecordKey(kind, Ahead(view, kind, keep, key)[n - 1]));
      && StartAfter(view, kind, next) > StartAfter(view, kind, key)
      && Ahead(view, kind, keep, next) == Ahead(view, kind, keep, key)[n..]
  {
    var p := StartAfter(view, kind, key);
    var q := CutPosition(view, keep, p, n);
    AheadAfterRow(view, kind, keep, q);
  }

  /** `CutResumes` for the rows a query of `plan` reads. */
  lemma ResumeInView(t: Table, plan: Plan, forward: bool, key: Option<AttrMap>, n: int)
    requires Distinct(IndexRows(t, plan.index))
    requires 1 <= n <= |Ahead(View(t, plan, forward), plan.index, FilterTest(plan.filter), key)|
    ensures var view := View(t, plan, forward);
      var ahead := Ahead(view, plan.index, FilterTest(plan.filter), key);
      var next := Some(RecordKey(plan.index, ahead[n - 1]));
      && StartAfter(view, plan.index, next) > StartAfter(view, plan.index, key)
      && Ahead(view, plan.index, FilterTest(plan.filter), next) == ahead[n..]
  {
    ViewDistinct(t, plan, forward);
    CutResumes(View(t, plan, forward), plan.index, FilterTest(plan.filter), key, n);
  }

  /** The n-th kept row from `p` on, as a position in the whole view. */
  lemma CutPosition(view: seq<StatsRecord>, keep: StatsRecord -> bool, p: nat, n: int) returns (q: nat)
    requires p <= |view| && 1 <= n <= |Select(view[p..], keep)|
    ensures p <= q < |view|
    ensures view[q] == Select(view[p..], keep)[n - 1]
    ensures Select(view[q + 1..], keep) == Select(view[p..], keep)[n..]
  {
    var q' := SelectCut(view[p..], keep, n);
    SuffixOfSuffix(view, p, q');
    q := p + q';
  }

  /** Resuming from the resume key of a row leaves the kept rows after it. */
  lemma AheadAfterRow(view: seq<StatsRecord>, kind: IndexKind, keep: StatsRecord -> bool, q: nat)
    requires Distinct(view) && q < |view|
    ensures StartAfter(view, kind, Some(RecordKey(kind, view[q]))) == q + 1
    ensures Ahead(view, kind, keep, Some(RecordKey(kind, view[q]))) == Select(view[q + 1..], keep)
  {
    ResumeAfterRow(view, kind, q);
  }


  // ---------------------------------------------------------------------
  // Order on the goals index

  predicate GoalsAscending(rows: seq<StatsRecord>)
  {
    forall i, j :: 0 <= i < j < |rows| ==> rows[i].goals <= rows[j].goals
  }

  predicate GoalsDescending(rows: seq<StatsRecord>)
  {
    forall i, j :: 0 <= i < j < |rows| ==> rows[i].goals >= rows[j].goals
  }

  lemma SelectAscending(rows: seq<StatsRecord>, keep: StatsRecord -> bool)
    requires GoalsAscending(rows)
    ensures GoalsAscending(Select(rows, keep))
  {
    var rel := (a: StatsRecord, b: StatsRecord) => a.goals <= b.goals;
    SelectPairwise(rows, keep, rel);
  }

  lemma SelectDescending(rows: seq<StatsRecord>, keep: StatsRecord -> bool)
    requires GoalsDescending(rows)
    ensures GoalsDescending(Select(rows, keep))
  {
    var rel := (a: StatsRecord, b: StatsRecord) => a.goals >= b.goals;
    SelectPairwise(rows, keep, rel);
  }

  /** The rows of one partition that the goals index holds come out in
      ascending order of goals. */
  lemma PartitionAscending(rows: seq<StatsRecord>, country: string, keep: StatsRecord -> bool)
    requires GoalsOrdered(rows)
    requires forall r :: keep(r) ==> r.partitionKey == country
    ensures GoalsAscending(Select(rows, keep))
  {
    var rel := (a: StatsRecord, b: StatsRecord) => a.partitionKey == b.partitionKey ==> a.goals <= b.goals;
    SelectPairwise(rows, keep, rel);
    var kept := Select(rows, keep);
    forall i, j | 0 <= i < j < |kept| ensures kept[i].goals <= kept[j].goals {
      SelectedRow(rows, keep, kept[i]);
      SelectedRow(rows, keep, kept[j]);
    }
  }

  lemma ReverseAscending(s: seq<StatsRecord>)
    requires GoalsAscending(s)
    ensures GoalsDescending(Reverse(s))
  {
    var r := Reverse(s);
    forall i, j | 0 <= i < j < |r| ensures r[i].goals >= r[j].goals {
      assert r[i] == s[|s| - 1 - i] && r[j] == s[|s| - 1 - j];
    }
  }

  lemma SuffixAscending(s: seq<StatsRecord>, p: nat)
    requires GoalsAscending(s) && p <= |s|
    ensures GoalsAscending(s[p..])
  {
    var u := s[p..];
    forall i, j | 0 <= i < j < |u| ensures u[i].goals <= u[j].goals {
      assert u[i] == s[p + i] && u[j] == s[p + j];
    }
  }

  lemma SuffixDescending(s: seq<StatsRecord>, p: nat)
    requires GoalsDescending(s) && p <= |s|
    ensures GoalsDescending(s[p..])
  {
    var u := s[p..];
    forall i, j | 0 <= i < j < |u| ensures u[i].goals >= u[j].goals {
      assert u[i] == s[p + i] && u[j] == s[p + j];
    }
  }

  /** A query on the goals index for one partition reads its rows in
      ascending order of goals, and in descending order when it scans
      backwards; so do the rows it keeps after any start key. */
  lemma GsiAheadInGoalOrder(t: Table, plan: Plan, forward: bool, key: Option<AttrMap>)
    requires ValidTable(t) && plan.index == Gsi1 && plan.keyCondition.PartitionAndGoalsAtLeast?
    ensures var ahead := Ahead(View(t, plan, forward), Gsi1, FilterTest(plan.filter), key);
      && (forward ==> GoalsAscending(ahead))
      && (!forward ==> GoalsDescending(ahead))
  {
    var keep := KeyTest(plan.keyCondition);
    var matched := Select(t.gsi1, keep);
    PartitionAscending(t.gsi1, plan.keyCondition.country, keep);
    var view := View(t, plan, forward);
    var p := StartAfter(view, Gsi1, key);
    if forward {
      SuffixAscending(view, p);
      SelectAscending(view[p..], FilterTest(plan.filter));
    } else {
      ReverseAscending(matched);
      SuffixDescending(view, p);
      SelectDescending(view[p..], FilterTest(plan.filter));
    }
  }

}
