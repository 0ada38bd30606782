# Player-statistics paging over a DynamoDB table

This project models the paging core of the player-statistics store in
`storage/dynamo/player_stats.go`. The store is a DynamoDB table keyed by
country (`pk`) and `<team>#<firstName>#<lastName>` (`sk`), plus a
global secondary index `GSI1` sorted by `goals`.

Callers page through a team's players with a `Cursor`. The cursor holds a
page limit, the last evaluated key and a scan direction. The modelled parts
are:

- the key codec: the sort key, the primary key, and the two resume
  (exclusive-start) keys;
- the three query expressions, modelled as plan values with a selection
  predicate;
- the filter-aware accumulator that both goal-threshold listings share.
  It pulls pages until it holds exactly `PageLimit` records, and then
  points the cursor at the last record it returned. If the pages run out
  first, it clears the cursor;
- the single bounded fetch of `ListLimitedPlayers`;
- the full drain of `ListAllPlayers`;
- the caller's loop that calls again until the cursor comes back nil.

Modules follow the structure of the program:

- `AttributeValues`: attribute values, item maps, attribute names.
- `KeyCodec`: the sort key, `Split`, the primary key and the resume keys.
- `Records`: the stored record, its item form, and resume keys of records.
- `QueryPlans`: key conditions, filters and the three plans.
- `Paging`: the cursor, pages, and the accumulator (`Accumulate`). It also
  holds the loop-free reference `AccumulateSpec`, the drain loop and the
  limited response.
- `Store`: the assumed DynamoDB Query semantics. These are listed below.
- `PlayerStats`: the four listings run against the store model, and
  lemmas over a whole paging session.
- `SeqFacts`: small generic sequence facts.

## Store model

The AWS SDK is replaced by an explicit model of a Query, in `Store`:

- The key condition selects the rows of one index in key order. The order
  is reversed when `ScanIndexForward` is false.
- `Limit` bounds the rows read per request before the filter is applied.
  So does the 1 MB response cap, modelled as `Table.maxRows`.
- The filter then drops rows. `Count` is the number of rows that remain.
- A request that stops at its bound reports the key of the last row it
  read as `LastEvaluatedKey`. This includes a request whose last row
  happens to be the last matching one.
- `ExclusiveStartKey` resumes strictly after the row with that key.
- A direct Query refuses a `Limit` below one.
- The paginator sends `Limit` only when it is positive. A request with a
  `Limit` below one therefore goes out without a limit, and only the
  response cap bounds its pages.
- The paginator keeps asking for as long as the previous page reported a
  key.
- The goals index `GSI1` holds the same rows as the table. Within one
  partition (one country) it holds them in ascending order of `goals`.

## Exact fill

On a page that exactly fills `PageLimit`, the `>=` test at line 262
leaves a non-nil cursor, even when no matching record follows. The next
call then returns no records and a nil cursor. An example is the seed
records of `main/util.go` (lines 51-72). The USA `WNT` team has two
records with at least 10 goals (63 and 119). Read on `GSI1` in ascending order with
page size 1 and threshold 10, the first call returns one record and a
key. The second call returns the other record and again a key. A third
call returns nothing and nil. `PlayerStats.ExactFillNeedsOneMoreCall`
states this for every table.

## Model

| member | source | states |
|---|---|---|
| KeyCodec.SortKey | storage/dynamo/player_stats.go:93-95 | The sort key has the length of the three parts plus two separators, and begins with `team#`. |
| KeyCodec.SplitSortKey | storage/dynamo/player_stats.go:93-95 | When no part contains `#`, splitting the sort key at `#` gives back exactly `[team, first, last]` (the format documented at line 30). |
| KeyCodec.SortKeyInjective | storage/dynamo/player_stats.go:93-95 | Under the same condition, equal sort keys mean equal team, first name and last name. |
| KeyCodec.BuildKey | storage/dynamo/player_stats.go:40-45 | The key has exactly the attributes `pk` and `sk`: `pk` is the country and `sk` is the sort key of team, first and last name. |
| KeyCodec.ExclusiveStartKey | storage/dynamo/player_stats.go:78-83 | The resume key has exactly the attributes `pk` and `sk`, with the item's values copied. An absent attribute is copied as nil. |
| KeyCodec.ExclusiveStartKeyForGsi | storage/dynamo/player_stats.go:85-91 | The GSI resume key has exactly the attributes `pk`, `sk` and `goals`, with the item's values copied. |
| Records.RecordKeyIdentifies | storage/dynamo/player_stats.go:28-38 | Equal resume keys of two records mean equal primary keys. On the table this is an if-and-only-if. On the goals index, equal keys mean equal primary keys and equal goals. |
| Records.TableResumeKeyIsLookupKey | storage/dynamo/player_stats.go:40-45 | For a well-formed record, the table resume key built from its item equals `buildKey` of its country, team and names. |
| Records.IdDeterminesPlayer | storage/dynamo/player_stats.go:28-38 | Among well-formed records, `(pk, sk)` determines country, team, first name and last name. |
| QueryPlans.ListPlayersPlan | storage/dynamo/player_stats.go:47-54 | The plain listing runs on the table without a filter. It selects a record exactly when `pk` is the country and `sk` begins with the bare team name. |
| QueryPlans.GoalsFilterPlan | storage/dynamo/player_stats.go:56-65 | The plan runs on the table. Its key condition selects the same records as the plain listing. It selects a record exactly when the key condition holds and `goals >= threshold`. |
| QueryPlans.GoalsSortedPlan | storage/dynamo/player_stats.go:67-76 | The plan runs on GSI1 with the key condition `pk = country AND goals >= threshold`. It selects a record exactly when, in addition, `national_team` equals the team. |
| QueryPlans.TeamPrefixScope | storage/dynamo/player_stats.go:50 | For well-formed records, the plain listing for `team` selects every record of the country whose team name begins with `team`, not only the records of that team. |
| QueryPlans.SortedPlanIsTeamExact | storage/dynamo/player_stats.go:60-72 | For well-formed records, the GSI plan selects a record if and only if the table goal plan does and the record's team is exactly the named team. |
| Paging.Delivered | storage/dynamo/player_stats.go:257-260 | The pages handed on number at most the fetches. They are all of them exactly when no fetch failed. Otherwise the first fetch not handed on is the first failure. |
| Paging.AccumulateSpecShape | storage/dynamo/player_stats.go:250-268 | A failure returns no records and the cursor unchanged. Otherwise the records are an in-order prefix of the delivered items, at most `PageLimit` of them. A non-nil key comes with exactly `PageLimit` records and is the resume key of the last record returned. A nil key comes with every item of every page, fewer than `PageLimit`. |
| Paging.Accumulate | storage/dynamo/player_stats.go:250-268 | The loop, with the resume-key builder chosen by the index, returns exactly the loop-free reference `AccumulateSpec`. The loop invariants keep `0 <= len(collected) < PageLimit`, so the slice `Items[:pendingItems]` and the index `Items[pendingItems-1]` are in range. The one precondition excludes exactly the inputs on which the code slices or indexes with a negative bound: a limit below one together with a first page that arrives. The second copy of the loop (lines 296-313) is the same method with `kind` set to GSI1. |
| Paging.DrainAll | storage/dynamo/player_stats.go:186-195 | The drain returns the first failure's error with no records, or else the concatenation of every page's items in page order. |
| PlayerStats.CallIsNextPage | storage/dynamo/player_stats.go:244-268 | Against the store model, one call returns the first `PageLimit` matching records not yet passed, with the resume key of the last of them. If fewer remain, it returns all of them with a nil key. |
| PlayerStats.ListPlayersByGoalsThreshold | storage/dynamo/player_stats.go:231-274 | For `PageLimit >= 1`, the call returns the next page of the goal-filtered team listing, as `CallIsNextPage` states. That is the first `PageLimit` matching records not yet passed, with the resume key of the last of them, or all that remain with a nil key. |
| PlayerStats.ListPlayersByGoalsThresholdSorted | storage/dynamo/player_stats.go:276-319 | The same for the GSI1 plan and `PageLimit >= 1`, with the `{pk, sk, goals}` resume key. |
| PlayerStats.LimitBelowOneReachesBadIndex | storage/dynamo/player_stats.go:262-264 | With `PageLimit < 1`, the first page of either goal listing arrives, the test `Count >= pendingItems` holds, and `pendingItems - 1` is negative. |
| PlayerStats.DrainSorted | main/main.go:154-176 | The caller's loop over the sorted listing collects the team's remaining records. They come in ascending order of goals, or in descending order when `ScanIndexForward` is false (top scorers first). Every one has the country, the team and at least the threshold. |
| PlayerStats.SortedListingIsTeamGoalListing | storage/dynamo/player_stats.go:56-76 | From a nil key, and for well-formed rows, the sorted listing yields exactly the table rows that the table goal listing selects and whose team is exactly the named team. |
| PlayerStats.ResumeFromLastReturned | storage/dynamo/player_stats.go:262-265 | Setting the key to the resume key of the `PageLimit`-th matching record ahead leaves exactly the matching records after it, and moves the read position forward. |
| PlayerStats.NextCallContinues | storage/dynamo/player_stats.go:262-265 | After a budget-filled call, the records returned followed by what remains for the returned cursor equal what remained before. Nothing is skipped or repeated, and the position advances. After a call with a nil key, the records are everything that remained. Only the key of the cursor changes. |
| PlayerStats.PageContinues | storage/dynamo/player_stats.go:262-265 | The same continuation facts, for any response equal to the next page. |
| PlayerStats.ExactFillNeedsOneMoreCall | storage/dynamo/player_stats.go:252-262 | When exactly `PageLimit` matching records remain, the call returns them all with a non-nil key. The call after it returns no records and a nil key. |
| PlayerStats.ExactFillPage | storage/dynamo/player_stats.go:262-265 | When exactly `PageLimit` matching records remain, the page returns them all, keeps the limit, and leaves nothing for the returned cursor. |
| PlayerStats.Drain | main/main.go:137-151 | Calling again with the returned cursor until the key comes back nil collects exactly the matching records the first cursor had not yet passed, in reading order. |
| PlayerStats.RemainingFromStart | storage/dynamo/player_stats.go:247-249 | Without a start key, what remains is every record of the index the plan selects, each once (no repeated primary key), in reading order. |
| PlayerStats.ListLimitedPlayers | storage/dynamo/player_stats.go:203-229 | The call fails if and only if `PageLimit < 1`, and then returns nothing and leaves the cursor unchanged. Otherwise it returns an in-order prefix of the team rows ahead, at most `PageLimit` and at most one response's worth, and copies the store's key into the cursor. A nil key means every row ahead was returned. A non-nil key is the resume key of the last row returned. |
| PlayerStats.LimitedPageShape | storage/dynamo/player_stats.go:219-223 | One bounded request returns a prefix of the rows from its start, at most its size. A nil key means all of them. A non-nil key is that of the last row returned. |
| PlayerStats.LimitedStep | storage/dynamo/player_stats.go:209-223 | For a plan without a filter, the single request returns the next rows from the cursor on, at most `PageLimit` of them, with the store's key exactly when it stopped at its bound. |
| PlayerStats.LimitedPageContinues | storage/dynamo/player_stats.go:216-223 | Resuming from the copied key continues right after the last row returned, with nothing skipped or repeated, and moves the position forward. |
| PlayerStats.LimitedDrain | main/main.go:137-151 | Repeating the limited listing with the returned cursor until the key is nil collects every team row the first cursor had not passed, in table order. |
| PlayerStats.LimitedRemainingFromStart | storage/dynamo/player_stats.go:216-218 | Without a start key, the limited listing's remaining rows are every table row matching the team key condition. |
| PlayerStats.ListAllPlayers | storage/dynamo/player_stats.go:172-201 | The full listing never fails against the store model. It returns every table row with the country as `pk` and an `sk` beginning with the team name, in table order, exactly once each: no two returned rows share a primary key. |
| Store.PaginateDelivers | storage/dynamo/player_stats.go:250-257 | Whatever the limit, nothing fails, and the delivered items are the filtered rows after the start key, in reading order. |
| Store.PaginatorInput | storage/dynamo/player_stats.go:250 | The request the paginator sends equals the given one, except that a `Limit` below one is left out. What is sent never carries a limit below one. |
| Store.QueryOnce | storage/dynamo/player_stats.go:219 | A direct Query fails if and only if its `Limit` is below one, with `LimitBelowOne`. Otherwise it returns the paginator's first page. |
| Store.PageSize | storage/dynamo/player_stats.go:244 | One request reads at most its `Limit` rows and at most one response's worth. Its page size is the smaller of the two. |
| Store.CursorInput | storage/dynamo/player_stats.go:238-249 | The goal listings' request carries the plan, `PageLimit` as `Limit` and the cursor's direction. It carries an `ExclusiveStartKey` exactly when the cursor's key is non-nil, and then that key. The sorted copy at lines 283-295 builds the same request. |
| Store.GsiAheadInGoalOrder | storage/dynamo/player_stats.go:285-293 | On the goals index, the rows one partition's query keeps after any start key are in ascending order of goals, and in descending order when it scans backwards. |
| PlayerStats.LimitedInput | storage/dynamo/player_stats.go:209-218 | The limited listing's request carries `PageLimit` as `Limit` and the cursor's key exactly when it is non-nil. It sets no direction, so it reads forward. |
| Paging.LimitedResponse | storage/dynamo/player_stats.go:219-223 | A failed Query returns no records, the error and the cursor unchanged. Otherwise the records are the page's items and the cursor's key is the store's `LastEvaluatedKey`, copied as is. The limit and direction are kept. |
| KeyCodec.ResumeKey | storage/dynamo/player_stats.go:264 | On the table, the resume key has exactly `pk` and `sk`; on GSI1 (line 309) it also has `goals`. Each value is copied from the item. |
| Store.CutResumes | storage/dynamo/player_stats.go:262-264 | Resuming from the resume key of the n-th kept row ahead moves the start forward and leaves exactly the kept rows after the first n. |
| Store.ResumeAfterRow | storage/dynamo/player_stats.go:247-249 | In a view without repeated keys, the resume key of a row starts the next request just after that row. |

## Left out

- The AWS SDK (`dynamodb.Client`, `NewQueryPaginator`, `context`) is replaced by the store model above. Its behaviour is assumed, not derived.
- Attribute-value marshalling (`MarshalMap`, `UnmarshalListOfMaps`) is left out. Items are records and are converted with `Records.ToItem`. An unmarshalling error after the cursor has been updated (lines 224-227, 269-272) is not modelled.
- Expression building (`expression.Builder`, placeholder names and values, `Build` errors) is left out. Plans are datatype values.
- `ScanStatsTable`, `GetPlayerStats`, `PutPlayerStats` and `ListPlayers` are left out. Each is a thin wrapper around one SDK call.
- The `fmt.Println` at line 253 is left out, as are the printing, configuration and seed data of `main/main.go` and `main/util.go`. The caller's loop is mirrored by `PlayerStats.Drain` and `PlayerStats.LimitedDrain`.
- `storage/storage.go` holds interface declarations only. From `storage/dynamo/aws_dynamo.go` only the `Cursor` shape is used.
- Concurrency is left out, because a cursor belongs to one caller.
- The cursor is returned updated instead of mutated through a pointer.
- Store.StartAfter: a start key that names no row is taken to lie past the end. The store's real ordering of keys between rows is not modelled.
- Store.PageSize: the 1 MB response cap is modelled as a row count, `Table.maxRows`.
- Store.ValidTable: the table's rows are taken in a given order, and their order by sort key is not modelled. Listings of the table are therefore stated "in table order", not in sort-key order. Only the goals index is required to be ordered, by `goals` within a partition.
- Paging.Accumulate: `PageLimit` is an `int32`, and its conversion to `int` cannot overflow. No wrap-around is modelled.
- ListPlayersByGoalsThreshold: requires `PageLimit >= 1`. With a smaller limit the paginator sends no limit, the first page arrives, and the code panics: at the slice `Items[:pendingItems]` (line 263) when the limit is negative, and at `Items[pendingItems-1]` (line 264) when it is zero. A panic is not modelled. `PlayerStats.LimitBelowOneReachesBadIndex` shows that this branch is reached.
- ListPlayersByGoalsThresholdSorted: requires `PageLimit >= 1`, for the same reason (lines 308-309).
