/** The records the culture registry stores: the host's `GameCulture`, the grammar data and the
    button draw data of a culture, and the `MoreLocalesCulture` entry that bundles them. C#
    delegates are function-valued fields; a null delegate or reference is `None`. */
module Cultures {
  import opened Text
  import opened Enums
  import opened CultureHelper
  import LangFeatures

  /** A host culture: its language code (`GameCulture.Name`) and its legacy id. */
  datatype GameCulture = GameCulture(name: string, legacyId: int)

  /** A loaded mod, identified by its internal name (unique among loaded mods). */
  datatype ModRef = ModRef(name: string)

  /** `MoreLocales.Instance`. */
  const MoreLocalesMod := ModRef("MoreLocales")

  /** A texture asset reference, by asset path. */
  datatype Sheet = Sheet(path: string)

  /** A `ButtonPanelDraw` hook; drawing is not modelled, so a hook is only told apart by
      who supplied it. */
  datatype PanelHook = PanelHook(owner: string)

  /** `Func<int, int, int, int>` taking (count, count % 10, count % 100). */
  type PluralRule = (int, int, int) -> int

  /** `Func<GrammaticalGender, Pluralization, bool>`. */
  type ContextRule = (bv8, bv8) -> bool

  /** `Func<bool>`. */
  type Availability = () -> bool

  /** The number of frames in the mod's own flag sheet (`BetterLangMenuV2.FlagsCount`). */
  const FlagsCount := 28

  /** `GrammarData`. `pluralizationRule` holds the PluralizationStyle value. */
  datatype GrammarData = GrammarData(
    pluralizationRule: int,
    customPluralizationRule: Option<PluralRule>,
    adjectiveOrder: AdjectiveOrder,
    contextChangesAdjective: Option<ContextRule>)

  /** The primary constructor with its optional parameters. The order default is `new()`,
      the zero-initialised `AdjectiveOrder`. */
  function NewGrammarData(pluralizationStyle: int := StyleSimple,
                          customPluralizationRule: Option<PluralRule> := None,
                          adjectiveOrder: AdjectiveOrder := DefaultOrder,
                          contextChangesAdjective: Option<ContextRule> := None): GrammarData
  {
    GrammarData(pluralizationStyle, customPluralizationRule, adjectiveOrder, contextChangesAdjective)
  }

  /** `new GrammarData()` and `default(GrammarData)`: C# zero-initialises a struct for a
      parameterless `new()`, so the style is 0 (no PluralizationStyle member) rather than the
      primary constructor's `Simple`. */
  const ZeroGrammarData := GrammarData(0, None, DefaultOrder, None)

  // The factory helpers: each sets only the fields it names.

  function Context(contextChangesAdjective: ContextRule): GrammarData
  {
    NewGrammarData(contextChangesAdjective := Some(contextChangesAdjective))
  }

  function StyleOrder(pluralizationStyle: int, adjectiveOrder: AdjectiveOrder): GrammarData
  {
    NewGrammarData(pluralizationStyle := pluralizationStyle, adjectiveOrder := adjectiveOrder)
  }

  function OrderContext(adjectiveOrder: AdjectiveOrder, contextChangesAdjective: ContextRule): GrammarData
  {
    NewGrammarData(adjectiveOrder := adjectiveOrder, contextChangesAdjective := Some(contextChangesAdjective))
  }

  function StyleContext(pluralizationStyle: int, contextChangesAdjective: ContextRule): GrammarData
  {
    NewGrammarData(pluralizationStyle := pluralizationStyle, contextChangesAdjective := Some(contextChangesAdjective))
  }

  function StyleOrderContext(pluralizationStyle: int, adjectiveOrder: AdjectiveOrder,
                             contextChangesAdjective: ContextRule): GrammarData
  {
    NewGrammarData(pluralizationStyle, None, adjectiveOrder, Some(contextChangesAdjective))
  }

  /** Each factory leaves every field it does not name at the primary constructor's default:
      the Simple style, no custom rule, the zero order and no context rule. */
  lemma FactoriesSetOnlyTheirFields(style: int, order: AdjectiveOrder, rule: ContextRule)
    ensures Context(rule) == GrammarData(StyleSimple, None, DefaultOrder, Some(rule))
    ensures StyleOrder(style, order) == GrammarData(style, None, order, None)
    ensures OrderContext(order, rule) == GrammarData(StyleSimple, None, order, Some(rule))
    ensures StyleContext(style, rule) == GrammarData(style, None, DefaultOrder, Some(rule))
    ensures StyleOrderContext(style, order, rule) == GrammarData(style, None, order, Some(rule))
    ensures NewGrammarData().pluralizationRule == StyleSimple != ZeroGrammarData.pluralizationRule
  {
  }

  /** `LanguageButtonDrawData`. */
  datatype LanguageButtonDrawData = LanguageButtonDrawData(
    sheet: Option<Sheet>,
    sheetFrameCount: int,
    sheetFrame: int,
    hijackPanelDraw: Option<PanelHook>)

  /** The primary constructor: a given frame count is raised to at least 1, a missing one is
      the flag sheet's 28 frames when no sheet is given and 1 otherwise; a given frame is
      raised to at least 0, a missing one is 0. */
  function NewButtonDrawData(sheet: Option<Sheet> := None, sheetFrameCount: Option<int> := None,
                             sheetFrame: Option<int> := None,
                             hijackPanelDraw: Option<PanelHook> := None): (d: LanguageButtonDrawData)
    ensures d.sheetFrameCount >= 1 && d.sheetFrame >= 0
    ensures sheetFrameCount.Some? && sheetFrameCount.value >= 1 ==> d.sheetFrameCount == sheetFrameCount.value
    ensures sheetFrameCount.Some? && sheetFrameCount.value < 1 ==> d.sheetFrameCount == 1
    ensures sheetFrameCount.None? && sheet.None? ==> d.sheetFrameCount == FlagsCount
    ensures sheetFrameCount.None? && sheet.Some? ==> d.sheetFrameCount == 1
    ensures sheetFrame.Some? && sheetFrame.value >= 0 ==> d.sheetFrame == sheetFrame.value
    ensures (sheetFrame.Some? && sheetFrame.value < 0) || sheetFrame.None? ==> d.sheetFrame == 0
    ensures d.sheet == sheet && d.hijackPanelDraw == hijackPanelDraw
  {
    var count := if sheetFrameCount.Some? then (if sheetFrameCount.value > 1 then sheetFrameCount.value else 1)
                 else if sheet.None? then FlagsCount else 1;
    var frame := if sheetFrame.Some? then (if sheetFrame.value > 0 then sheetFrame.value else 0) else 0;
    LanguageButtonDrawData(sheet, count, frame, hijackPanelDraw)
  }

  /** `new LanguageButtonDrawData()` (the registration methods' default argument): a
      parameterless `new()` zero-initialises the struct, so the field initialisers do not run
      and the frame count is 0. */
  const ZeroButtonDrawData := LanguageButtonDrawData(None, 0, 0, None)

  /** `MoreLocalesCulture`. `name` is the internal name (empty for the zero entry, whose null
      name interpolation renders as nothing). */
  datatype MoreLocalesCulture = MoreLocalesCulture(
    culture: Option<GameCulture>,
    name: string,
    fallbackCulture: int,
    hasSubtitle: bool,
    hasDescription: bool,
    grammarData: GrammarData,
    available: Option<Availability>,
    buttonDrawData: LanguageButtonDrawData,
    mod: Option<ModRef>)
  {
    /** Registered by a mod other than this one. */
    predicate OtherCustom()
    {
      mod.Some? && mod.value != MoreLocalesMod
    }

    /** One of the added cultures this mod registers itself. */
    predicate NativeCustom()
    {
      mod == Some(MoreLocalesMod)
    }

    /** One of the host's own cultures. */
    predicate Vanilla()
    {
      mod.None?
    }

    /** The mod whose localization file holds this culture's display keys. */
    function OwnerFunctionalName(): (owner: string)
      ensures Vanilla() ==> owner == MoreLocalesMod.name
      ensures !Vanilla() ==> owner == mod.value.name
    {
      if Vanilla() then "MoreLocales" else mod.value.name
    }
  }

  /** `default(MoreLocalesCulture)`: the dummy entry in slot 0 and every slot not yet written. */
  const EmptyCulture := MoreLocalesCulture(None, "", 0, false, false, ZeroGrammarData, None, ZeroButtonDrawData, None)

  /** Every entry is exactly one of vanilla, native custom and other custom, and native and
      vanilla entries are both owned, for display purposes, by this mod. */
  lemma OwnerKindsPartition(c: MoreLocalesCulture)
    ensures c.Vanilla() || c.NativeCustom() || c.OtherCustom()
    ensures !(c.Vanilla() && c.NativeCustom()) && !(c.Vanilla() && c.OtherCustom())
            && !(c.NativeCustom() && c.OtherCustom())
    ensures c.NativeCustom() ==> c.OwnerFunctionalName() == MoreLocalesMod.name
    ensures c.OtherCustom() ==> c.OwnerFunctionalName() != MoreLocalesMod.name
  {
  }

  /** `IsCustom` for the culture whose legacy id is `id`, read from the registry table. */
  function IsCustom(cultures: seq<MoreLocalesCulture>, id: int): (r: Result<bool, Exception>)
    ensures r.Err? <==> !(0 <= id < |cultures|)
    ensures r.Ok? ==> (r.value <==> cultures[id].mod.Some?)
  {
    if 0 <= id < |cultures| then Ok(!cultures[id].Vanilla()) else Err(IndexOutOfRange)
  }

  /** `MapLegacyIDToPluralizationID`: an id below the first added culture is its own plural
      rule; any other id reads the registered culture's style (10 for Custom). */
  function MapLegacyIdToPluralizationId(cultures: seq<MoreLocalesCulture>, realId: int): (r: Result<int, Exception>)
    ensures realId < BritishEnglish ==> r == Ok(realId)
    ensures realId >= BritishEnglish ==> (r.Err? <==> realId >= |cultures|)
    ensures r.Err? ==> r.error == IndexOutOfRange
  {
    if realId < BritishEnglish then Ok(realId)
    else if realId < |cultures| then Ok(cultures[realId].grammarData.pluralizationRule)
    else Err(IndexOutOfRange)
  }

  /** `CustomPluralization`: the culture's own rule applied to (count, mod10, mod100); a
      culture without one throws. */
  function CustomPluralization(cultures: seq<MoreLocalesCulture>, c: int, mod10: int, mod100: int, count: int): (r: Result<int, Exception>)
    ensures !(0 <= c < |cultures|) ==> r == Err(IndexOutOfRange)
    ensures 0 <= c < |cultures| && cultures[c].grammarData.customPluralizationRule.None? ==> r == Err(NullReference)
    ensures 0 <= c < |cultures| && cultures[c].grammarData.customPluralizationRule.Some?
            ==> r == Ok(cultures[c].grammarData.customPluralizationRule.value(count, mod10, mod100))
  {
    if !(0 <= c < |cultures|) then Err(IndexOutOfRange)
    else
      var rule := cultures[c].grammarData.customPluralizationRule;
      if rule.None? then Err(NullReference) else Ok(rule.value(count, mod10, mod100))
  }

  /** The fallback choice spliced into the host's language reload: the active culture's
      fallback when it is not English (looked up in the host's legacy table), else nothing. */
  function FallbackFor(cultures: seq<MoreLocalesCulture>, legacy: map<int, GameCulture>, activeId: int): (r: Result<Option<GameCulture>, Exception>)
    ensures !(0 <= activeId < |cultures|) ==> r == Err(IndexOutOfRange)
    ensures 0 <= activeId < |cultures| && cultures[activeId].fallbackCulture == English ==> r == Ok(None)
    ensures r.Ok? && r.value.Some? ==> cultures[activeId].fallbackCulture != English
                                        && cultures[activeId].fallbackCulture in legacy
                                        && r.value.value == legacy[cultures[activeId].fallbackCulture]
    ensures 0 <= activeId < |cultures| && cultures[activeId].fallbackCulture != English
            ==> (r == Err(KeyNotFound) <==> cultures[activeId].fallbackCulture !in legacy)
  {
    if !(0 <= activeId < |cultures|) then Err(IndexOutOfRange)
    else
      var fb := cultures[activeId].fallbackCulture;
      if fb != English then (if fb in legacy then Ok(Some(legacy[fb])) else Err(KeyNotFound))
      else Ok(None)
  }

  /** The host's own cultures, by legacy id (`GameCulture._legacyCultures` before any
      registration; `_NamedCultures` holds the same entries keyed by CultureName). */
  const VanillaHostCultures: map<int, GameCulture> := map[
    English := GameCulture("en-US", English),
    German := GameCulture("de-DE", German),
    Italian := GameCulture("it-IT", Italian),
    French := GameCulture("fr-FR", French),
    Spanish := GameCulture("es-ES", Spanish),
    Russian := GameCulture("ru-RU", Russian),
    Chinese := GameCulture("zh-Hans", Chinese),
    Portuguese := GameCulture("pt-BR", Portuguese),
    Polish := GameCulture("pl-PL", Polish)]

  /** The host's default culture, English. */
  const DefaultCulture := GameCulture("en-US", English)

  /** The host's `GameCulture.FromLegacyId`: an id below 1 is raised to 1, and an id the
      legacy map lacks gives the default culture instead of throwing. */
  function FromLegacyId(legacy: map<int, GameCulture>, id: int): (c: GameCulture)
    ensures id >= English && id in legacy ==> c == legacy[id]
    ensures id < English && English in legacy ==> c == legacy[English]
    ensures (if id < English then English else id) !in legacy ==> c == DefaultCulture
  {
    var k := if id < English then English else id;
    if k in legacy then legacy[k] else DefaultCulture
  }

  /** When the legacy map keys each culture by its own id, the culture `FromLegacyId` gives
      has an id of at least 1, and has the asked id when the map holds it. */
  lemma FromLegacyIdKeepsId(legacy: map<int, GameCulture>, id: int)
    requires forall k | k in legacy :: legacy[k].legacyId == k
    ensures FromLegacyId(legacy, id).legacyId >= English
    ensures id >= English && id in legacy ==> FromLegacyId(legacy, id).legacyId == id
  {
  }

  lemma VanillaHostCulturesShape()
    ensures VanillaHostCultures.Keys == {English, German, Italian, French, Spanish, Russian, Chinese, Portuguese, Polish}
    ensures forall id :: id in VanillaHostCultures ==> VanillaHostCultures[id].legacyId == id
  {
  }
}
