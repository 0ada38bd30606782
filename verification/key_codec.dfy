/** Sort keys, primary keys and resume (exclusive-start) keys of the
    player-statistics table. */
module KeyCodec {
  import opened AttributeValues

  /** The separator between the parts of a sort key. */
  const Separator: char := '#'

  predicate NoSeparator(s: string)
  {
    Separator !in s
  }

  /** The sort key `<team>#<firstName>#<lastName>`. */
  function SortKey(team: string, firstName: string, lastName: string): (key: string)
    ensures |key| == |team| + |firstName| + |lastName| + 2
    ensures key[..|team| + 1] == team + [Separator]
  {
    team + [Separator] + firstName + [Separator] + lastName
  }

  /** Splitting a string at every separator, as Go's `strings.Split` does:
      `n` separators give `n + 1` parts, none of which holds a separator. */
  function Split(s: string): (parts: seq<string>)
    ensures |parts| >= 1
    ensures forall k :: 0 <= k < |parts| ==> NoSeparator(parts[k])
    decreases |s|
  {
    if |s| == 0 then [""]
    else
      var rest := Split(s[1..]);
      if s[0] == Separator then [""] + rest
      else [[s[0]] + rest[0]] + rest[1..]
  }

  lemma {:induction false} SplitWithoutSeparator(s: string)
    requires NoSeparator(s)
    ensures Split(s) == [s]
    decreases |s|
  {
    if |s| > 0 {
      SplitWithoutSeparator(s[1..]);
      assert [s[0]] + s[1..] == s;
    }
  }

  lemma {:induction false} SplitAfterSegment(a: string, b: string)
    requires NoSeparator(a)
    ensures Split(a + [Separator] + b) == [a] + Split(b)
    decreases |a|
  {
    var s := a + [Separator] + b;
    if |a| == 0 {
      assert s[1..] == b;
    } else {
      assert s[1..] == a[1..] + [Separator] + b;
      SplitAfterSegment(a[1..], b);
      assert [a[0]] + a[1..] == a;
    }
  }

  /** When no part holds the separator, splitting a sort key gives back
      exactly its three parts. */
  lemma SplitSortKey(team: string, firstName: string, lastName: string)
    requires NoSeparator(team) && NoSeparator(firstName) && NoSeparator(lastName)
    ensures Split(SortKey(team, firstName, lastName)) == [team, firstName, lastName]
  {
    var rest := firstName + [Separator] + lastName;
    assert SortKey(team, firstName, lastName) == team + [Separator] + rest;
    SplitAfterSegment(team, rest);
    SplitAfterSegment(firstName, lastName);
    SplitWithoutSeparator(lastName);
  }

  /** Under the same condition the sort key determines the player. */
  lemma SortKeyInjective(t: string, f: string, l: string, t': string, f': string, l': string)
    requires NoSeparator(t) && NoSeparator(f) && NoSeparator(l)
    requires NoSeparator(t') && NoSeparator(f') && NoSeparator(l')
    requires SortKey(t, f, l) == SortKey(t', f', l')
    ensures t == t' && f == f' && l == l'
  {
    SplitSortKey(t, f, l);
    SplitSortKey(t', f', l');
  }

  /** The primary-table key of one player: the country as partition key and
      the team-qualified name as sort key. */
  function BuildKey(country: string, team: string, firstName: string, lastName: string): (key: AttrMap)
    ensures key.Keys == {Pk, Sk}
    ensures key[Pk] == S(country)
    ensures key[Sk] == S(SortKey(team, firstName, lastName))
  {
    map[Pk := S(country), Sk := S(SortKey(team, firstName, lastName))]
  }

  /** The resume key for a primary-table query: the item's `pk` and `sk`
      values, whether or not the item has them. */
  function ExclusiveStartKey(item: AttrMap): (key: AttrMap)
    ensures key.Keys == {Pk, Sk}
    ensures key[Pk] == Lookup(item, Pk) && key[Sk] == Lookup(item, Sk)
  {
    map[Pk := Lookup(item, Pk), Sk := Lookup(item, Sk)]
  }

  /** The resume key for a query on the goals index: the table key plus the
      index's sort attribute. */
  function ExclusiveStartKeyForGsi(item: AttrMap): (key: AttrMap)
    ensures key.Keys == {Pk, Sk, Goals}
    ensures key[Pk] == Lookup(item, Pk) && key[Sk] == Lookup(item, Sk)
    ensures key[Goals] == Lookup(item, Goals)
  {
    map[Pk := Lookup(item, Pk), Sk := Lookup(item, Sk), Goals := Lookup(item, Goals)]
  }

  /** The index a query runs on; it decides the shape of the resume key. */
  datatype IndexKind = Primary | Gsi1

  /** The resume key the listing on `kind` builds from an item: the table's
      key attributes, plus the index's sort attribute on the goals index. */
  function ResumeKey(kind: IndexKind, item: AttrMap): (key: AttrMap)
    ensures kind == Primary ==> key.Keys == {Pk, Sk}
    ensures kind == Gsi1 ==> key.Keys == {Pk, Sk, Goals} && key[Goals] == Lookup(item, Goals)
    ensures key[Pk] == Lookup(item, Pk) && key[Sk] == Lookup(item, Sk)
  {
    match kind
    case Primary => ExclusiveStartKey(item)
    case Gsi1 => ExclusiveStartKeyForGsi(item)
  }
}
