/** The culture helpers that need no registry: the custom pluralization rules of the added
    cultures, the adjective-order record and the culture-id range check. */
module CultureHelper {
  import opened Text
  import opened Enums

  /** `IsValid`: a culture id addresses a real slot of a registry table of `length` slots
      (slot 0 is never a culture). */
  predicate IsValid(culture: int, length: int)
  {
    culture > 0 && culture < length
  }

  /** C#'s `%` on `int`: the remainder takes the sign of the dividend (truncated division),
      unlike Dafny's Euclidean `%`. */
  function CsRem(a: int, b: int): (r: int)
    requires b > 0
    ensures a >= 0 ==> r == a % b
    ensures a < 0 ==> -b < r <= 0
  {
    if a >= 0 then a % b else -((-a) % b)
  }

  // The three custom rules take (count, count % 10, count % 100) and return the index of
  // the plural form to use: 0 singular, 1 plural/few, 2 many.

  /** `czechPlural`: one for exactly 1, few for 2 to 4, many otherwise. */
  function CzechPlural(count: int, mod10: int, mod100: int): (r: int)
    ensures 0 <= r <= 2
    ensures r == 0 <==> count == 1
    ensures r == 1 <==> 2 <= count <= 4
  {
    if count == 1 then 0
    else if count >= 2 && count <= 4 then 1
    else 2
  }

  /** `turkishPlural`: the plural form only above one, so zero takes the singular. */
  function TurkishPlural(count: int, mod10: int, mod100: int): (r: int)
    ensures 0 <= r <= 1
    ensures r == 1 <==> count > 1
  {
    if count > 1 then 1 else 0
  }

  /** `romanianPlural`: one for exactly 1; few for 0 and whenever the last two digits are
      1 to 19; many otherwise. */
  function RomanianPlural(count: int, mod10: int, mod100: int): (r: int)
    ensures 0 <= r <= 2
    ensures r == 0 <==> count == 1
    ensures r == 1 <==> count != 1 && (count == 0 || 0 < mod100 < 20)
  {
    if count == 1 then 0
    else if count == 0 || (mod100 > 0 && mod100 < 20) then 1
    else 2
  }

  /** The CLDR plural categories for integers in Romanian ("one", "few", "other"), as an
      independent reference for `RomanianPlural`. */
  function RomanianCldr(n: nat): (r: int)
  {
    if n == 1 then 0
    else if n == 0 || (n % 100 >= 1 && n % 100 <= 19) then 1
    else 2
  }

  /** Fed with the remainders the way C# computes them, the Romanian rule agrees with the
      CLDR categories on every count from 0, and gives "many" for every negative count. */
  lemma RomanianMatchesCldr(count: int)
    ensures count >= 0 ==> RomanianPlural(count, CsRem(count, 10), CsRem(count, 100)) == RomanianCldr(count)
    ensures count < 0 ==> RomanianPlural(count, CsRem(count, 10), CsRem(count, 100)) == 2
  {
  }

  /** The adjective-order record: where the adjective goes and what joins it to the noun.
      `connector` is `None` when the C# string is null, which string interpolation renders
      as nothing. */
  datatype AdjectiveOrder = AdjectiveOrder(kind: AdjectiveOrderType, connector: Option<string>)
  {
    /** The connector as interpolation renders it. */
    function ConnectorText(): string
    {
      if connector.Some? then connector.value else ""
    }

    /** `Apply`: the adjective and noun joined by the connector, in this order's direction. */
    function Apply(noun: string, adjective: string): (r: string)
      ensures |r| == |noun| + |ConnectorText()| + |adjective|
      ensures kind == Before ==> StartsWith(r, adjective) && EndsWith(r, noun)
                                  && r[|adjective|..|r| - |noun|] == ConnectorText()
      ensures kind == After ==> StartsWith(r, noun) && EndsWith(r, adjective)
                                 && r[|noun|..|r| - |adjective|] == ConnectorText()
    {
      if kind == Before then adjective + ConnectorText() + noun
      else noun + ConnectorText() + adjective
    }
  }

  /** `default(AdjectiveOrder)` and `new()`: both zero-initialise the struct, so the type is
      `Before` and the connector is null (the primary constructor's "" default is not used). */
  const DefaultOrder := AdjectiveOrder(AdjectiveOrderType.Before, None)

  /** The four presets. */
  const OrderBefore := DefaultOrder
  const OrderAfter := AdjectiveOrder(AdjectiveOrderType.After, Some(""))
  const OrderBeforeWithSpace := AdjectiveOrder(AdjectiveOrderType.Before, Some(" "))
  const OrderAfterWithSpace := AdjectiveOrder(AdjectiveOrderType.After, Some(" "))

  /** An "after" order is the "before" order with the same connector and the two words
      swapped. */
  lemma ApplyMirror(c: Option<string>, noun: string, adjective: string)
    ensures AdjectiveOrder(AdjectiveOrderType.After, c).Apply(noun, adjective)
         == AdjectiveOrder(AdjectiveOrderType.Before, c).Apply(adjective, noun)
  {
  }

  /** The `Before` preset is the struct's default value (null connector), yet it renders
      exactly like a `Before` order with an empty connector; the spaced presets insert one
      space. */
  lemma PresetsRender(noun: string, adjective: string)
    ensures OrderBefore == DefaultOrder
    ensures OrderBefore.Apply(noun, adjective) == adjective + noun
    ensures OrderAfter.Apply(noun, adjective) == noun + adjective
    ensures OrderBeforeWithSpace.Apply(noun, adjective) == adjective + " " + noun
    ensures OrderAfterWithSpace.Apply(noun, adjective) == noun + " " + adjective
  {
  }
}
