/** Attribute values as the store holds them, and the attribute names of the
    persisted player-statistics layout (the `dynamodbav` tags of the record). */
module AttributeValues {

  datatype Option<+T> = None | Some(value: T)

  /** One stored attribute value: a string, a number, or `Missing`, which
      stands for the nil interface value Go reads from an item map under an
      attribute name the item does not have. */
  datatype AttrValue = S(s: string) | N(n: int) | Missing

  /** An item, or a key, as a map from attribute name to value. */
  type AttrMap = map<string, AttrValue>

  const Pk: string := "pk"
  const Sk: string := "sk"
  const Goals: string := "goals"
  const Assists: string := "assists"
  const Appearances: string := "appearances"
  const CountryAttr: string := "country"
  const NationalTeam: string := "national_team"
  const FirstName: string := "first_name"
  const LastName: string := "last_name"

  /** Reading `m[name]` the way Go does: the stored value, or nil when absent. */
  function Lookup(m: AttrMap, name: string): AttrValue
  {
    if name in m then m[name] else Missing
  }
}
