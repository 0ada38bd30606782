/** The three listing queries as values: a key condition, an optional filter
    and the index they run on, with the records each one selects. */
module QueryPlans {
  import opened AttributeValues
  import opened KeyCodec
  import opened Records

  /** The conditions a key condition expression can state here. */
  datatype KeyCondition =
    | PartitionAndSortPrefix(country: string, prefix: string)    // pk = country AND begins_with(sk, prefix)
    | PartitionAndGoalsAtLeast(country: string, threshold: int)  // pk = country AND goals >= threshold

  /** The conditions a filter expression can state here. */
  datatype Filter =
    | GoalsAtLeast(threshold: int)   // goals >= threshold
    | TeamEquals(team: string)       // national_team = team

  datatype Plan = Plan(index: IndexKind, keyCondition: KeyCondition, filter: Option<Filter>)

  predicate StartsWith(s: string, prefix: string)
  {
    |prefix| <= |s| && s[..|prefix|] == prefix
  }

  predicate KeyMatches(c: KeyCondition, r: StatsRecord)
  {
    match c
    case PartitionAndSortPrefix(country, prefix) =>
      r.partitionKey == country && StartsWith(r.sortKey, prefix)
    case PartitionAndGoalsAtLeast(country, threshold) =>
      r.partitionKey == country && r.goals >= threshold
  }

  predicate FilterMatches(f: Option<Filter>, r: StatsRecord)
  {
    match f
    case None => true
    case Some(GoalsAtLeast(threshold)) => r.goals >= threshold
    case Some(TeamEquals(team)) => r.nationalTeam == team
  }

  /** A record is in a plan's answer when it meets the key condition and the
      filter; the store applies the two at different times (see Store). */
  predicate Selects(p: Plan, r: StatsRecord)
  {
    KeyMatches(p.keyCondition, r) && FilterMatches(p.filter, r)
  }

  /** Plain team listing on the table: the team name is the bare sort-key
      prefix, with no separator after it. */
  function ListPlayersPlan(country: string, team: string): (p: Plan)
    ensures p.index == Primary && p.filter == None
    ensures forall r :: Selects(p, r) <==> r.partitionKey == country && StartsWith(r.sortKey, team)
  {
    Plan(Primary, PartitionAndSortPrefix(country, team), None)
  }

  /** Team listing on the table, filtered on goals after the key condition. */
  function GoalsFilterPlan(country: string, team: string, threshold: int): (p: Plan)
    ensures p.index == Primary
    ensures forall r :: Selects(p, r) <==>
      r.partitionKey == country && StartsWith(r.sortKey, team) && r.goals >= threshold
    ensures forall r :: KeyMatches(p.keyCondition, r) <==> Selects(ListPlayersPlan(country, team), r)
  {
    Plan(Primary, PartitionAndSortPrefix(country, team), Some(GoalsAtLeast(threshold)))
  }

  /** Listing on the goals index: the goals bound is part of the key
      condition, the team only a filter. */
  function GoalsSortedPlan(country: string, team: string, threshold: int): (p: Plan)
    ensures p.index == Gsi1
    ensures forall r :: KeyMatches(p.keyCondition, r) <==> r.partitionKey == country && r.goals >= threshold
    ensures forall r :: Selects(p, r) <==>
      r.partitionKey == country && r.goals >= threshold && r.nationalTeam == team
  {
    Plan(Gsi1, PartitionAndGoalsAtLeast(country, threshold), Some(TeamEquals(team)))
  }

  /** Because the prefix is the bare team name, a team listing for `team`
      selects every well-formed record whose team name begins with `team`,
      not only the records of that team. */
  lemma TeamPrefixScope(country: string, team: string, r: StatsRecord)
    requires WellFormed(r) && NoSeparator(team)
    ensures Selects(ListPlayersPlan(country, team), r) <==>
      r.partitionKey == country && StartsWith(r.nationalTeam, team)
  {
    var t := r.nationalTeam;
    var sk := r.sortKey;
    assert sk[..|t| + 1] == t + [Separator];
    assert sk[|t|] == (t + [Separator])[|t|] == Separator;
    if StartsWith(sk, team) {
      assert |team| <= |t| by {
        if |team| > |t| {
          assert false;
        }
      }
      assert t[..|team|] == sk[..|team|];
    }
    if StartsWith(t, team) {
      assert sk[..|team|] == t[..|team|];
    }
  }

  /** Exactly the own team's records are shared by the two goal plans: the
      goals-index plan selects a well-formed record if and only if the table
      plan does and the record belongs to the named team. */
  lemma SortedPlanIsTeamExact(country: string, team: string, threshold: int, r: StatsRecord)
    requires WellFormed(r)
    ensures Selects(GoalsSortedPlan(country, team, threshold), r) <==>
      Selects(GoalsFilterPlan(country, team, threshold), r) && r.nationalTeam == team
  {
    if r.nationalTeam == team {
      assert r.sortKey[..|team| + 1] == team + [Separator];
      assert r.sortKey[..|team|] == team;
    }
  }
}
