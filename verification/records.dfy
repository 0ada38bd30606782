/** The stored statistics record of one player and its attribute layout. */
module Records {
  import opened AttributeValues
  import opened KeyCodec

  datatype StatsRecord = StatsRecord(
    partitionKey: string,  // the country
    sortKey: string,       // <team>#<firstName>#<lastName>
    goals: int,            // sort attribute of the goals index
    assists: int,
    appearances: int,
    country: string,
    nationalTeam: string,
    firstName: string,
    lastName: string)

  /** The record as a stored item, one attribute per field. */
  function ToItem(r: StatsRecord): AttrMap
  {
    map[
      Pk := S(r.partitionKey),
      Sk := S(r.sortKey),
      Goals := N(r.goals),
      Assists := N(r.assists),
      Appearances := N(r.appearances),
      CountryAttr := S(r.country),
      NationalTeam := S(r.nationalTeam),
      FirstName := S(r.firstName),
      LastName := S(r.lastName)]
  }

  /** A record as written by a well-behaved caller: keys consistent with the
      plain attributes, no separator inside a name part, counts non-negative. */
  predicate WellFormed(r: StatsRecord)
  {
    && r.partitionKey == r.country
    && r.sortKey == SortKey(r.nationalTeam, r.firstName, r.lastName)
    && NoSeparator(r.nationalTeam) && NoSeparator(r.firstName) && NoSeparator(r.lastName)
    && r.goals >= 0 && r.assists >= 0 && r.appearances >= 0
  }

  /** The table's primary key values; the table holds one item per pair. */
  function Id(r: StatsRecord): (string, string)
  {
    (r.partitionKey, r.sortKey)
  }

  /** The resume key the store and the accumulator build from a record. */
  function RecordKey(kind: IndexKind, r: StatsRecord): AttrMap
  {
    ResumeKey(kind, ToItem(r))
  }

  /** A resume key names one table item: on either index, equal resume keys
      mean equal primary keys; on the goals index they also mean equal goals. */
  lemma RecordKeyIdentifies(kind: IndexKind, a: StatsRecord, b: StatsRecord)
    ensures RecordKey(kind, a) == RecordKey(kind, b) ==> Id(a) == Id(b)
    ensures kind == Primary ==> (RecordKey(kind, a) == RecordKey(kind, b) <==> Id(a) == Id(b))
    ensures kind == Gsi1 ==>
      (RecordKey(kind, a) == RecordKey(kind, b) <==> Id(a) == Id(b) && a.goals == b.goals)
  {
    var ka, kb := RecordKey(kind, a), RecordKey(kind, b);
    assert Lookup(ToItem(a), Pk) == S(a.partitionKey) && Lookup(ToItem(b), Pk) == S(b.partitionKey);
    assert Lookup(ToItem(a), Sk) == S(a.sortKey) && Lookup(ToItem(b), Sk) == S(b.sortKey);
    assert Lookup(ToItem(a), Goals) == N(a.goals) && Lookup(ToItem(b), Goals) == N(b.goals);
    if ka == kb {
      assert ka[Pk] == kb[Pk] && ka[Sk] == kb[Sk];
      if kind == Gsi1 {
        assert ka[Goals] == kb[Goals];
      }
    }
  }

  /** The resume key of a well-formed record on the table is the key a point
      lookup of that player uses. */
  lemma TableResumeKeyIsLookupKey(r: StatsRecord)
    requires WellFormed(r)
    ensures RecordKey(Primary, r) == BuildKey(r.country, r.nationalTeam, r.firstName, r.lastName)
  {
    assert Lookup(ToItem(r), Pk) == S(r.partitionKey);
    assert Lookup(ToItem(r), Sk) == S(r.sortKey);
  }

  /** Among well-formed records the primary key determines the player. */
  lemma IdDeterminesPlayer(a: StatsRecord, b: StatsRecord)
    requires WellFormed(a) && WellFormed(b)
    requires Id(a) == Id(b)
    ensures a.country == b.country && a.nationalTeam == b.nationalTeam
    ensures a.firstName == b.firstName && a.lastName == b.lastName
  {
    SortKeyInjective(a.nationalTeam, a.firstName, a.lastName, b.nationalTeam, b.firstName, b.lastName);
  }
}
