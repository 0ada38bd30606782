/** The four paging listings of the player-statistics store, driven against
    the store model, and what a caller sees over a whole paging session. */
module PlayerStats {
  import opened AttributeValues
  import opened KeyCodec
  import opened Records
  import opened QueryPlans
  import opened Paging
  import opened Store
  import opened SeqFacts

  /** One accumulating call: the request built from the cursor, every page
      the paginator yields for it, and the accumulator over those pages. */
  function Call(t: Table, plan: Plan, c: Cursor): Response
  {
    AccumulateSpec(Paginate(t, CursorInput(plan, c)), c, plan.index)
  }

  /** Where the cursor's key lets a request start reading. */
  function Position(t: Table, plan: Plan, c: Cursor): nat
  {
    var view := View(t, plan, c.scanIndexForward);
    StartAfter(view, plan.index, c.lastEvaluatedKey)
  }

  /** The records the plan selects that the cursor has not yet passed, in
      reading order. */
  function Remaining(t: Table, plan: Plan, c: Cursor): seq<StatsRecord>
  {
    Ahead(View(t, plan, c.scanIndexForward), plan.index, FilterTest(plan.filter), c.lastEvaluatedKey)
  }

  /** The page a call should return, given the matching records still
      ahead: the first `pageLimit` of them and the resume key of the last one
      when there are that many; otherwise all of them and no key. */
  function NextPage(ahead: seq<StatsRecord>, c: Cursor, kind: IndexKind): Response
    requires c.pageLimit >= 1
  {
    var n := c.pageLimit as int;
    if |ahead| >= n then
      Response(ahead[..n], c.(lastEvaluatedKey := Some(RecordKey(kind, ahead[n - 1]))), None)
    else
      Response(ahead, c.(lastEvaluatedKey := None), None)
  }

  /** One call returns exactly the next page of the matching records. */
  lemma CallIsNextPage(t: Table, plan: Plan, c: Cursor)
    requires c.pageLimit >= 1
    ensures Call(t, plan, c) == NextPage(Remaining(t, plan, c), c, plan.index)
  {
    PaginateDelivers(t, CursorInput(plan, c));
  }

  /** The goal-filtered listing on the table (the first accumulating copy). */
  method ListPlayersByGoalsThreshold(t: Table, country: string, team: string, threshold: int, c: Cursor)
    returns (resp: Response)
    requires c.pageLimit >= 1
    ensures resp == Call(t, GoalsFilterPlan(country, team, threshold), c)
    ensures resp == NextPage(Remaining(t, GoalsFilterPlan(country, team, threshold), c), c, Primary)
  {
    var plan := GoalsFilterPlan(country, team, threshold);
    var fetches := Paginate(t, CursorInput(plan, c));
    resp := Accumulate(fetches, c, plan.index);
    CallIsNextPage(t, plan, c);
  }

  /** The goal listing on the goals index (the second accumulating copy);
      only the resume-key shape differs. */
  method ListPlayersByGoalsThresholdSorted(t: Table, country: string, team: string, threshold: int, c: Cursor)
    returns (resp: Response)
    requires c.pageLimit >= 1
    ensures resp == Call(t, GoalsSortedPlan(country, team, threshold), c)
    ensures resp == NextPage(Remaining(t, GoalsSortedPlan(country, team, threshold), c), c, Gsi1)
  {
    var plan := GoalsSortedPlan(country, team, threshold);
    var fetches := Paginate(t, CursorInput(plan, c));
    resp := Accumulate(fetches, c, plan.index);
    CallIsNextPage(t, plan, c);
  }

  /** With a limit below one the request goes out without a limit and its
      first page arrives; the accumulator then takes the cut branch with
      nothing pending, where the slice bound or the index `pending - 1` is
      negative. */
  lemma LimitBelowOneReachesBadIndex(t: Table, plan: Plan, c: Cursor)
    requires c.pageLimit < 1
    ensures var fetches := Paginate(t, CursorInput(plan, c));
      var collectedSoFar := 0;
      var pending := c.pageLimit as int - collectedSoFar;
      && fetches[0].Fetched?
      && fetches[0].page.count >= pending
      && pending - 1 < 0
  {
    var fetches := Paginate(t, CursorInput(plan, c));
    assert fetches[0].Fetched?;
    assert fetches[0].page.count == |fetches[0].page.items|;
  }

  /** Moving the cursor to the key of the n-th record ahead leaves exactly
      the records after the first n ahead, and moves the reading position
      forward. */
  lemma ResumeFromLastReturned(t: Table, plan: Plan, c: Cursor, c': Cursor)
    requires Distinct(IndexRows(t, plan.index)) && c.pageLimit >= 1
    requires |Remaining(t, plan, c)| >= c.pageLimit as int
    requires c'.scanIndexForward == c.scanIndexForward
    requires c'.lastEvaluatedKey == Some(RecordKey(plan.index, Remaining(t, plan, c)[c.pageLimit as int - 1]))
    ensures Remaining(t, plan, c') == Remaining(t, plan, c)[c.pageLimit as int..]
    ensures Position(t, plan, c') > Position(t, plan, c)
  {
    ResumeInView(t, plan, c.scanIndexForward, c.lastEvaluatedKey, c.pageLimit as int);
  }

  /** Resuming from a budget-filled page continues exactly after the last
      record returned: nothing is skipped, nothing repeated, and the reading
      position moves forward; a page without a key holds everything left. */
  lemma NextCallContinues(t: Table, plan: Plan, c: Cursor)
    requires Distinct(IndexRows(t, plan.index)) && c.pageLimit >= 1
    ensures var resp := Call(t, plan, c);
      && resp.error == None
      && resp.cursor == c.(lastEvaluatedKey := resp.cursor.lastEvaluatedKey)
      && (resp.cursor.lastEvaluatedKey.None? ==> resp.records == Remaining(t, plan, c))
      && (resp.cursor.lastEvaluatedKey.Some? ==>
            && resp.records + Remaining(t, plan, resp.cursor) == Remaining(t, plan, c)
            && Position(t, plan, resp.cursor) > Position(t, plan, c))
  {
    CallIsNextPage(t, plan, c);
    PageContinues(t, plan, c, Call(t, plan, c));
  }

  /** The same, for any response equal to the next page. */
  lemma PageContinues(t: Table, plan: Plan, c: Cursor, resp: Response)
    requires Distinct(IndexRows(t, plan.index)) && c.pageLimit >= 1
    requires resp == NextPage(Remaining(t, plan, c), c, plan.index)
    ensures resp.error == None
    ensures resp.cursor == c.(lastEvaluatedKey := resp.cursor.lastEvaluatedKey)
    ensures resp.cursor.lastEvaluatedKey.None? ==> resp.records == Remaining(t, plan, c)
    ensures resp.cursor.lastEvaluatedKey.Some? ==>
      && resp.records + Remaining(t, plan, resp.cursor) == Remaining(t, plan, c)
      && Position(t, plan, resp.cursor) > Position(t, plan, c)
  {
    var ahead := Remaining(t, plan, c);
    if |ahead| >= c.pageLimit as int {
      FullPageContinues(t, plan, c, ahead, resp);
    }
  }

  /** A budget-filled page: its records and what the new cursor leaves
      make up what the old one left. */
  lemma FullPageContinues(t: Table, plan: Plan, c: Cursor, ahead: seq<StatsRecord>, resp: Response)
    requires Distinct(IndexRows(t, plan.index)) && c.pageLimit >= 1
    requires ahead == Remaining(t, plan, c) && |ahead| >= c.pageLimit as int
    requires resp == NextPage(ahead, c, plan.index)
    ensures resp.cursor.lastEvaluatedKey.Some?
    ensures resp.records + Remaining(t, plan, resp.cursor) == ahead
    ensures Position(t, plan, resp.cursor) > Position(t, plan, c)
  {
    var n := c.pageLimit as int;
    assert resp.cursor.scanIndexForward == c.scanIndexForward;
    assert resp.cursor.lastEvaluatedKey == Some(RecordKey(plan.index, ahead[n - 1]));
    assert resp.records == ahead[..n];
    ResumeFromLastReturned(t, plan, c, resp.cursor);
    TakeDrop(ahead, n);
  }

  /** When the matching records ahead exactly fill the budget, the call
      still returns a resume key, and the call after it returns nothing and
      no key. */
  lemma ExactFillNeedsOneMoreCall(t: Table, plan: Plan, c: Cursor)
    requires Distinct(IndexRows(t, plan.index)) && c.pageLimit >= 1
    requires |Remaining(t, plan, c)| == c.pageLimit as int
    ensures var first := Call(t, plan, c);
      && first.records == Remaining(t, plan, c)
      && first.cursor.lastEvaluatedKey.Some?
      && Call(t, plan, first.cursor).records == []
      && Call(t, plan, first.cursor).cursor.lastEvaluatedKey == None
  {
    var first := Call(t, plan, c);
    CallIsNextPage(t, plan, c);
    ExactFillPage(t, plan, c, first);
    CallIsNextPage(t, plan, first.cursor);
  }

  lemma ExactFillPage(t: Table, plan: Plan, c: Cursor, first: Response)
    requires Distinct(IndexRows(t, plan.index)) && c.pageLimit >= 1
    requires |Remaining(t, plan, c)| == c.pageLimit as int
    requires first == NextPage(Remaining(t, plan, c), c, plan.index)
    ensures first.records == Remaining(t, plan, c)
    ensures first.cursor.lastEvaluatedKey.Some?
    ensures first.cursor.pageLimit == c.pageLimit
    ensures Remaining(t, plan, first.cursor) == []
  {
    var ahead := Remaining(t, plan, c);
    var n := c.pageLimit as int;
    assert first.cursor.scanIndexForward == c.scanIndexForward && first.cursor.pageLimit == c.pageLimit;
    assert first.cursor.lastEvaluatedKey == Some(RecordKey(plan.index, ahead[n - 1]));
    assert first.records == ahead[..n];
    DropAll(ahead, n);
    ResumeFromLastReturned(t, plan, c, first.cursor);
  }

  /** The caller's loop: call again with the returned cursor until a call
      returns no key. It collects exactly the matching records the first
      cursor had not yet passed, each once and in reading order. */
  method Drain(t: Table, plan: Plan, c: Cursor) returns (all: seq<StatsRecord>)
    requires ValidTable(t) && c.pageLimit >= 1
    ensures all == Remaining(t, plan, c)
  {
    ValidIndexDistinct(t, plan.index);
    var cur := c;
    all := [];
    while true
      invariant cur.pageLimit == c.pageLimit && cur.scanIndexForward == c.scanIndexForward
      invariant all + Remaining(t, plan, cur) == Remaining(t, plan, c)
      decreases |View(t, plan, c.scanIndexForward)| - Position(t, plan, cur)
    {
      var resp := Call(t, plan, cur);
      NextCallContinues(t, plan, cur);
      if resp.cursor.lastEvaluatedKey.None? {
        all := all + resp.records;
        return;
      }
      Assoc(all, resp.records, Remaining(t, plan, resp.cursor), Remaining(t, plan, cur), Remaining(t, plan, c));
      all := all + resp.records;
      cur := resp.cursor;
    }
  }

  /** The caller's loop over the sorted listing: it collects the team's
      records still ahead, in ascending order of goals, or in descending
      order when the cursor scans backwards (the top scorers first). */
  method DrainSorted(t: Table, country: string, team: string, threshold: int, c: Cursor) returns (all: seq<StatsRecord>)
    requires ValidTable(t) && c.pageLimit >= 1
    ensures all == Remaining(t, GoalsSortedPlan(country, team, threshold), c)
    ensures c.scanIndexForward ==> GoalsAscending(all)
    ensures !c.scanIndexForward ==> GoalsDescending(all)
    ensures forall r :: r in all ==> r.partitionKey == country && r.nationalTeam == team && r.goals >= threshold
  {
    var plan := GoalsSortedPlan(country, team, threshold);
    all := Drain(t, plan, c);
    GsiAheadInGoalOrder(t, plan, c.scanIndexForward, c.lastEvaluatedKey);
    var view := View(t, plan, c.scanIndexForward);
    var p := StartAfter(view, plan.index, c.lastEvaluatedKey);
    forall r | r in all
      ensures r.partitionKey == country && r.nationalTeam == team && r.goals >= threshold
    {
      SelectedRow(view[p..], FilterTest(plan.filter), r);
      SortedViewRow(t, plan, c.scanIndexForward, r);
    }
  }

  /** Every row a goals-index query reads meets its key condition. */
  lemma SortedViewRow(t: Table, plan: Plan, forward: bool, r: StatsRecord)
    requires r in View(t, plan, forward)
    ensures KeyMatches(plan.keyCondition, r)
  {
    var matched := Select(IndexRows(t, plan.index), KeyTest(plan.keyCondition));
    ViewHasMatched(matched, View(t, plan, forward), forward, r);
    SelectedRow(IndexRows(t, plan.index), KeyTest(plan.keyCondition), r);
  }

  /** From a fresh cursor, the sorted listing yields exactly the records of
      the named team that the table's goal listing yields, since the goals
      index holds the table's rows. */
  lemma SortedListingIsTeamGoalListing(t: Table, country: string, team: string, threshold: int, c: Cursor)
    requires ValidTable(t) && c.lastEvaluatedKey == None
    requires forall r :: r in t.primary ==> WellFormed(r)
    ensures forall r :: r in Remaining(t, GoalsSortedPlan(country, team, threshold), c) <==>
      r in t.primary && Selects(GoalsFilterPlan(country, team, threshold), r) && r.nationalTeam == team
  {
    var plan := GoalsSortedPlan(country, team, threshold);
    RemainingFromStart(t, plan, c);
    forall r
      ensures r in t.gsi1 <==> r in t.primary
    {
      assert r in t.gsi1 <==> r in multiset(t.gsi1);
      assert r in t.primary <==> r in multiset(t.primary);
    }
    forall r | r in t.primary
      ensures Selects(plan, r) <==> Selects(GoalsFilterPlan(country, team, threshold), r) && r.nationalTeam == team
    {
      SortedPlanIsTeamExact(country, team, threshold, r);
    }
  }

  /** From a fresh cursor, what remains is every record the plan selects,
      each exactly once, in reading order. */
  lemma RemainingFromStart(t: Table, plan: Plan, c: Cursor)
    requires ValidTable(t) && c.lastEvaluatedKey == None
    ensures var all := Remaining(t, plan, c);
      && all == Select(View(t, plan, c.scanIndexForward), FilterTest(plan.filter))
      && Distinct(all)
      && forall x :: x in all <==> x in IndexRows(t, plan.index) && Selects(plan, x)
  {
    var rows := IndexRows(t, plan.index);
    var matched := Select(rows, KeyTest(plan.keyCondition));
    var view := View(t, plan, c.scanIndexForward);
    WholeSuffix(view);
    var all := Select(view, FilterTest(plan.filter));
    ViewDistinct(t, plan, c.scanIndexForward);
    SelectDistinct(view, FilterTest(plan.filter));
    forall x
      ensures x in all <==> x in rows && Selects(plan, x)
    {
      if x in all {
        SelectedRow(view, FilterTest(plan.filter), x);
        ViewHasMatched(matched, view, c.scanIndexForward, x);
        SelectedRow(rows, KeyTest(plan.keyCondition), x);
      }
      if x in rows && Selects(plan, x) {
        SelectKeeps(rows, KeyTest(plan.keyCondition), x);
        ViewHasMatched(matched, view, c.scanIndexForward, x);
        SelectKeeps(view, FilterTest(plan.filter), x);
      }
    }
  }

  lemma ViewHasMatched(matched: seq<StatsRecord>, view: seq<StatsRecord>, forward: bool, x: StatsRecord)
    requires view == if forward then matched else Reverse(matched)
    ensures x in view <==> x in matched
  {
    ReverseMembers(matched, x);
  }


  // ---------------------------------------------------------------------
  // The single-request listing

  /** The request of the limited listing: the cursor's budget and key, but
      the default forward direction, whatever the cursor says. */
  function LimitedInput(plan: Plan, c: Cursor): (input: QueryInput)
    ensures input.plan == plan && input.limit == Some(c.pageLimit as int)
    ensures input.exclusiveStartKey.Some? <==> c.lastEvaluatedKey.Some?
    ensures input.exclusiveStartKey.Some? ==> input.exclusiveStartKey.value == c.lastEvaluatedKey.value
    ensures input.scanIndexForward
  {
    QueryInput(plan, Some(c.pageLimit as int), c.lastEvaluatedKey, true)
  }

  function LimitedCall(t: Table, plan: Plan, c: Cursor): Response
  {
    LimitedResponse(QueryOnce(t, LimitedInput(plan, c)), c)
  }

  /** The records of the team that the cursor has not yet passed, in table
      order. */
  function LimitedRemaining(t: Table, plan: Plan, c: Cursor): seq<StatsRecord>
  {
    var view := View(t, plan, true);
    view[StartAfter(view, plan.index, c.lastEvaluatedKey)..]
  }

  /** What one request without a filter returns when it starts reading at
      `p` with `size` rows at most: the rows it read, and the key of the last
      of them exactly when it stopped at its bound. */
  function LimitedNext(view: seq<StatsRecord>, p: nat, size: Positive, c: Cursor, kind: IndexKind): Response
    requires p <= |view|
  {
    if p + size <= |view| then
      Response(view[p..p + size], c.(lastEvaluatedKey := Some(RecordKey(kind, view[p + size - 1]))), None)
    else
      Response(view[p..], c.(lastEvaluatedKey := None), None)
  }

  /** One bounded request; the store's resume key goes into the cursor as it
      is, which is the key of the last row read, returned or not. */
  method ListLimitedPlayers(t: Table, country: string, team: string, c: Cursor) returns (resp: Response)
    ensures resp == LimitedCall(t, ListPlayersPlan(country, team), c)
    ensures resp.error.Some? <==> c.pageLimit < 1
    ensures resp.error.Some? ==> resp.records == [] && resp.cursor == c
    ensures resp.error.None? ==>
      var ahead := LimitedRemaining(t, ListPlayersPlan(country, team), c);
      && resp.records <= ahead
      && |resp.records| <= c.pageLimit as int && |resp.records| <= t.maxRows
      && resp.cursor == c.(lastEvaluatedKey := resp.cursor.lastEvaluatedKey)
      && (resp.cursor.lastEvaluatedKey.None? ==> resp.records == ahead)
      && (resp.cursor.lastEvaluatedKey.Some? ==>
            |resp.records| >= 1
            && resp.cursor.lastEvaluatedKey == Some(RecordKey(Primary, resp.records[|resp.records| - 1])))
  {
    var plan := ListPlayersPlan(country, team);
    var fetch := QueryOnce(t, LimitedInput(plan, c));
    resp := LimitedResponse(fetch, c);
    if c.pageLimit >= 1 {
      LimitedStep(t, plan, c);
      var view := View(t, plan, true);
      LimitedPageShape(view, StartAfter(view, Primary, c.lastEvaluatedKey), PageSize(t, LimitedInput(plan, c)), c, Primary, resp);
    }
  }

  /** The page bounds of one limited request. */
  lemma LimitedPageShape(view: seq<StatsRecord>, p: nat, size: Positive, c: Cursor, kind: IndexKind, resp: Response)
    requires p <= |view| && size <= c.pageLimit as int
    requires resp == LimitedNext(view, p, size, c, kind)
    ensures resp.error == None
    ensures resp.records <= view[p..]
    ensures |resp.records| <= size
    ensures resp.cursor == c.(lastEvaluatedKey := resp.cursor.lastEvaluatedKey)
    ensures resp.cursor.lastEvaluatedKey.None? ==> resp.records == view[p..]
    ensures resp.cursor.lastEvaluatedKey.Some? ==>
      |resp.records| >= 1 && resp.cursor.lastEvaluatedKey == Some(RecordKey(kind, resp.records[|resp.records| - 1]))
  {
    if p + size <= |view| {
      SplitAt(view, p, p + size);
    }
  }

  /** For a plan without a filter, one limited request returns the next rows
      from the cursor on, at most a page of them, and the key of the last one
      exactly when it stopped at its bound. */
  lemma LimitedStep(t: Table, plan: Plan, c: Cursor)
    requires plan.filter == None && c.pageLimit >= 1
    ensures var view := View(t, plan, true);
      && PageSize(t, LimitedInput(plan, c)) <= c.pageLimit as int
      && LimitedCall(t, plan, c)
         == LimitedNext(view, StartAfter(view, plan.index, c.lastEvaluatedKey), PageSize(t, LimitedInput(plan, c)), c, plan.index)
  {
    var input := LimitedInput(plan, c);
    var view := View(t, plan, true);
    var p := StartAfter(view, plan.index, c.lastEvaluatedKey);
    var size := PageSize(t, input);
    PaginateFirst(t, input);
    assert QueryOnce(t, input) == Fetched(PageAt(view, plan, size, p));
    UnfilteredPage(view, plan, size, p, c);
  }

  /** Without a filter a page holds every row it read, so the limited
      response to it is the next rows from `p` on. */
  lemma UnfilteredPage(view: seq<StatsRecord>, plan: Plan, size: Positive, p: nat, c: Cursor)
    requires plan.filter == None && p <= |view|
    ensures LimitedResponse(Fetched(PageAt(view, plan, size, p)), c) == LimitedNext(view, p, size, c, plan.index)
  {
    var scanned := if p + size <= |view| then view[p..p + size] else view[p..];
    SelectKeepsAll(scanned, FilterTest(plan.filter));
  }

  /** Resuming from a limited page that stopped at its bound continues
      right after the last row read, and moves the reading position forward. */
  lemma LimitedPageContinues(t: Table, plan: Plan, c: Cursor, resp: Response)
    requires Distinct(IndexRows(t, plan.index)) && c.pageLimit >= 1
    requires var view := View(t, plan, true);
      resp == LimitedNext(view, StartAfter(view, plan.index, c.lastEvaluatedKey), PageSize(t, LimitedInput(plan, c)), c, plan.index)
    ensures var view := View(t, plan, true);
      resp.cursor.lastEvaluatedKey.None? ==> resp.records == LimitedRemaining(t, plan, c)
    ensures var view := View(t, plan, true);
      resp.cursor.lastEvaluatedKey.Some? ==>
        && resp.cursor.pageLimit == c.pageLimit
        && resp.records + LimitedRemaining(t, plan, resp.cursor) == LimitedRemaining(t, plan, c)
        && StartAfter(view, plan.index, resp.cursor.lastEvaluatedKey) > StartAfter(view, plan.index, c.lastEvaluatedKey)
  {
    var view := View(t, plan, true);
    ViewDistinct(t, plan, true);
    LimitedNextContinues(view, plan.index, StartAfter(view, plan.index, c.lastEvaluatedKey), PageSize(t, LimitedInput(plan, c)), c, resp);
  }

  /** The same, over the rows a request reads: a page with a key restarts
      reading just after its last row, and one without a key holds every
      row from `p` on. */
  lemma LimitedNextContinues(view: seq<StatsRecord>, kind: IndexKind, p: nat, size: Positive, c: Cursor, resp: Response)
    requires Distinct(view) && p <= |view|
    requires resp == LimitedNext(view, p, size, c, kind)
    ensures resp.cursor.lastEvaluatedKey.None? ==> resp.records == view[p..]
    ensures resp.cursor.lastEvaluatedKey.Some? ==>
      && resp.cursor.pageLimit == c.pageLimit
      && StartAfter(view, kind, resp.cursor.lastEvaluatedKey) > p
      && resp.records + view[StartAfter(view, kind, resp.cursor.lastEvaluatedKey)..] == view[p..]
  {
    if p + size <= |view| {
      FullLimitedPage(view, kind, p, size, c, resp);
    }
  }

  /** A limited page that stopped at its bound: its key restarts reading
      just after its last row, and its rows and the rest make up what was
      ahead. */
  lemma FullLimitedPage(view: seq<StatsRecord>, kind: IndexKind, p: nat, size: Positive, c: Cursor, resp: Response)
    requires Distinct(view) && p + size <= |view|
    requires resp == LimitedNext(view, p, size, c, kind)
    ensures resp.cursor.pageLimit == c.pageLimit
    ensures resp.cursor.lastEvaluatedKey.Some?
    ensures StartAfter(view, kind, resp.cursor.lastEvaluatedKey) == p + size
    ensures resp.records + view[p + size..] == view[p..]
  {
    assert resp.records == view[p..p + size];
    assert resp.cursor.lastEvaluatedKey == Some(RecordKey(kind, view[p + size - 1]));
    ResumeAfterRow(view, kind, p + size - 1);
    SplitAt(view, p, p + size);
  }

  /** The caller's loop over the limited listing: it collects every row
      of the team listing that the first cursor had not yet passed. */
  method LimitedDrain(t: Table, country: string, team: string, c: Cursor) returns (all: seq<StatsRecord>)
    requires ValidTable(t) && c.pageLimit >= 1
    ensures all == LimitedRemaining(t, ListPlayersPlan(country, team), c)
  {
    var plan := ListPlayersPlan(country, team);
    var view := View(t, plan, true);
    ValidIndexDistinct(t, plan.index);
    var cur := c;
    all := [];
    while true
      invariant cur.pageLimit == c.pageLimit
      invariant all + LimitedRemaining(t, plan, cur) == LimitedRemaining(t, plan, c)
      decreases |view| - StartAfter(view, plan.index, cur.lastEvaluatedKey)
    {
      var resp := ListLimitedPlayers(t, country, team, cur);
      LimitedStep(t, plan, cur);
      LimitedPageContinues(t, plan, cur, resp);
      if resp.cursor.lastEvaluatedKey.None? {
        all := all + resp.records;
        return;
      }
      Assoc(all, resp.records, LimitedRemaining(t, plan, resp.cursor), LimitedRemaining(t, plan, cur), LimitedRemaining(t, plan, c));
      all := all + resp.records;
      cur := resp.cursor;
    }
  }

  /** From a fresh cursor, what remains of the limited listing is every row
      of the team listing, in table order. */
  lemma LimitedRemainingFromStart(t: Table, country: string, team: string, c: Cursor)
    requires c.lastEvaluatedKey == None
    ensures LimitedRemaining(t, ListPlayersPlan(country, team), c)
      == Select(t.primary, KeyTest(PartitionAndSortPrefix(country, team)))
  {
    WholeSuffix(View(t, ListPlayersPlan(country, team), true));
  }

  // ---------------------------------------------------------------------
  // The full listing

  /** Every page of the team listing, drained; the request sets neither a
      limit nor a direction, so only the response-size cap splits it. */
  method ListAllPlayers(t: Table, country: string, team: string) returns (result: Listing)
    requires Distinct(t.primary)
    ensures result.error == None
    ensures result.records == Select(t.primary, KeyTest(PartitionAndSortPrefix(country, team)))
    ensures forall x :: x in result.records <==> x in t.primary && Selects(ListPlayersPlan(country, team), x)
    ensures Distinct(result.records)
  {
    var plan := ListPlayersPlan(country, team);
    var input := QueryInput(plan, None, None, true);
    var fetches := Paginate(t, input);
    result := DrainAll(fetches);
    PaginateDelivers(t, input);
    var view := View(t, plan, true);
    WholeSuffix(view);
    SelectKeepsAll(view, FilterTest(plan.filter));
    forall x
      ensures x in view <==> x in t.primary && Selects(plan, x)
    {
      if x in view {
        SelectedRow(t.primary, KeyTest(plan.keyCondition), x);
      }
      if x in t.primary && Selects(plan, x) {
        SelectKeeps(t.primary, KeyTest(plan.keyCondition), x);
      }
    }
    SelectDistinct(t.primary, KeyTest(plan.keyCondition));
  }
}
