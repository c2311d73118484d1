/** The enum values the localization extension relies on: the host's vanilla culture ids,
    the added cultures (`CultureNamePlus`), the pluralization styles and the adjective order
    types. C# enums are integers, so ids are `int` constants here. */
module Enums {

  // The host game's own cultures (GameCulture.CultureName), legacy ids 1..9.
  const English := 1
  const German := 2
  const Italian := 3
  const French := 4
  const Spanish := 5
  const Russian := 6
  const Chinese := 7
  const Portuguese := 8
  const Polish := 9

  // CultureNamePlus: the added cultures, numbered on from BritishEnglish = 10.
  const BritishEnglish := 10
  const Japanese := 11
  const Korean := 12
  const TraditionalChinese := 13
  const Turkish := 14
  const Thai := 15
  const Ukrainian := 16
  const MexicanSpanish := 17
  const Czech := 18
  const Hungarian := 19
  const PortugalPortuguese := 20
  const Swedish := 21
  const Dutch := 22
  const Danish := 23
  const Vietnamese := 24
  const Finnish := 25
  const Romanian := 26
  const Indonesian := 27
  /** The sentinel for "no culture loaded yet". */
  const Unknown := 9999

  /** Member names of CultureName, in declaration order (value = position + 1). */
  const VanillaCultureNames: seq<string> :=
    ["English", "German", "Italian", "French", "Spanish", "Russian", "Chinese", "Portuguese", "Polish"]

  /** Member names of CultureNamePlus before `Unknown`, in declaration order; a member
      without an explicit value is one more than the member before it. */
  const CustomCultureNames: seq<string> :=
    ["BritishEnglish", "Japanese", "Korean", "TraditionalChinese", "Turkish", "Thai", "Ukrainian",
     "MexicanSpanish", "Czech", "Hungarian", "PortugalPortuguese", "Swedish", "Dutch", "Danish",
     "Vietnamese", "Finnish", "Romanian", "Indonesian"]

  /** The value C# gives the `k`-th member of CultureNamePlus: the first is 10, each later
      member without an initializer is its predecessor plus one. */
  function CustomCultureValue(k: nat): int
    requires k < |CustomCultureNames|
  {
    if k == 0 then BritishEnglish else CustomCultureValue(k - 1) + 1
  }

  /** `nameof` of the culture enum member whose value is `id`. */
  function CultureNameOf(id: int): (name: string)
    requires English <= id <= Indonesian
    ensures id <= Polish ==> name == VanillaCultureNames[id - 1]
    ensures id >= BritishEnglish ==> name == CustomCultureNames[id - BritishEnglish]
  {
    if id <= Polish then VanillaCultureNames[id - 1] else CustomCultureNames[id - BritishEnglish]
  }

  // PluralizationStyle: each built-in style is the id of the vanilla culture whose rule it
  // borrows; Custom is one past the last vanilla id.
  const StyleNone := Chinese
  const StyleSimple := English
  const StyleSimpleWithSingularZero := French
  const StyleRussianThreeway := Russian
  const StylePolishThreeway := Polish
  const StyleCustom := 10

  /** The declared PluralizationStyle values. */
  const PluralizationStyles: set<int> :=
    {StyleNone, StyleSimple, StyleSimpleWithSingularZero, StyleRussianThreeway, StylePolishThreeway, StyleCustom}

  /** AdjectiveOrderType; `Before` is member 0 and hence the enum's default. */
  datatype AdjectiveOrderType = Before | After
  {
    function Value(): (v: int)
      ensures v == 0 <==> this == Before
      ensures 0 <= v <= 1
    {
      match this
      case Before => 0
      case After => 1
    }
  }

  /** The implicit numbering makes CultureNamePlus run without gaps from 10 to 27, and the
      named constants used elsewhere agree with it. */
  lemma {:induction false} CultureNamePlusConsecutive(k: nat)
    requires k < |CustomCultureNames|
    ensures CustomCultureValue(k) == BritishEnglish + k
    ensures CultureNameOf(CustomCultureValue(k)) == CustomCultureNames[k]
  {
    if k > 0 {
      CultureNamePlusConsecutive(k - 1);
    }
  }

  /** The last added culture is Indonesian = 27, and the sentinel lies beyond every id. */
  lemma CultureNamePlusRange()
    ensures CustomCultureValue(|CustomCultureNames| - 1) == Indonesian
    ensures forall k :: 0 <= k < |CustomCultureNames| ==> CustomCultureValue(k) < Unknown
  {
    forall k | 0 <= k < |CustomCultureNames| ensures CustomCultureValue(k) < Unknown {
      CultureNamePlusConsecutive(k);
    }
    CultureNamePlusConsecutive(|CustomCultureNames| - 1);
  }

  /** Every non-custom style is a vanilla culture id; Custom is the first id past them, so a
      switch over vanilla ids extended by one case reaches it. */
  lemma PluralizationStylesAreVanillaIds()
    ensures forall s :: s in PluralizationStyles && s != StyleCustom ==> English <= s <= Polish
    ensures StyleCustom == Polish + 1
  {
  }
}
