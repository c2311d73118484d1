/** Autoloaded cultures: a `ModCulture` is a template whose overridable hooks fill in the
    arguments of one `RegisterCulture` call, and the registry of autoloaded types maps each
    template type to the legacy id it was registered under, so a second registration of the
    same type does nothing. */
module CultureAutoloading {
  import opened Text
  import opened Enums
  import opened CultureHelper
  import opened Cultures
  import opened Registration
  import opened MoreLocalesApi

  /** The values `SetCultureData` receives and may overwrite through its `ref` parameters. */
  datatype CultureData = CultureData(fallbackCulture: int, hasSubtitle: bool, hasDescription: bool)

  /** The values `SetGrammarData` receives and may overwrite: the PluralizationStyle value
      and the adjective order. */
  datatype GrammarChoice = GrammarChoice(pluralizationStyle: int, adjectiveOrder: AdjectiveOrder)

  /** The values `SetButtonDrawData` receives and may overwrite: the sheet, the frame count
      and the frame, the latter two nullable. */
  datatype DrawChoice = DrawChoice(sheet: Option<Sheet>, sheetFrameCount: Option<int>, sheetFrame: Option<int>)

  /** A `ModCulture` subclass, as the values of its members. A `ref`-setter hook is the
      function from the values it receives to the values it leaves. Whether the subclass
      overrides `ContextChangesAdjective`, `IsAvailable` and `PreDrawButtonPanel` is what the
      source finds out by reflection; here it is given. */
  datatype ModCulture = ModCulture(
    typeId: TypeId,
    /** `Name`: the type's short name unless overridden. */
    name: string,
    /** `LanguageCode`; an implementation may return null. */
    languageCode: Option<string>,
    setCultureData: CultureData -> CultureData,
    setGrammarData: GrammarChoice -> GrammarChoice,
    customPluralizationRule: PluralRule,
    contextChangesAdjective: ContextRule,
    isAvailable: Availability,
    setButtonDrawData: DrawChoice -> DrawChoice,
    preDrawButtonPanel: PanelHook,
    overridesContextCuller: bool,
    overridesAvailability: bool,
    overridesPanelDraw: bool)

  /** A subclass that overrides only what it must: the setters leave their arguments as they
      are, the custom rule returns 0, the context culler and the availability hook return
      true, and no optional hook counts as overridden. */
  function BaseModCulture(typeId: TypeId, name: string, languageCode: Option<string>): (mc: ModCulture)
    ensures forall d :: mc.setCultureData(d) == d
    ensures forall g :: mc.setGrammarData(g) == g
    ensures forall d :: mc.setButtonDrawData(d) == d
    ensures forall count, mod10, mod100 :: mc.customPluralizationRule(count, mod10, mod100) == 0
    ensures forall gender, pluralization :: mc.contextChangesAdjective(gender, pluralization)
    ensures mc.isAvailable()
    ensures !mc.overridesContextCuller && !mc.overridesAvailability && !mc.overridesPanelDraw
  {
    ModCulture(typeId, name, languageCode,
               d => d, g => g, (count, mod10, mod100) => 0, (gender, pluralization) => true, () => true,
               d => d, PanelHook(typeId.fullName), false, false, false)
  }

  /** The defaults `Register` hands to `SetCultureData`: fallback to English, a subtitle and
      no description. */
  const DefaultCultureData := CultureData(English, true, false)

  /** The defaults `Register` hands to `SetGrammarData`: the Simple style and the
      zero-initialised order. */
  const DefaultGrammarChoice := GrammarChoice(StyleSimple, DefaultOrder)

  /** The defaults `Register` hands to `SetButtonDrawData`: nothing set. */
  const DefaultDrawChoice := DrawChoice(None, None, None)

  /** The arguments `Register` passes to `RegisterCulture`: the setter hooks run on the
      defaults, the custom plural rule is passed only for the Custom style, and each optional
      hook only when overridden. */
  function AutoloadArgs(mc: ModCulture, mod: Option<ModRef>): (a: CultureArgs)
    ensures a.internalName == mc.name && a.languageCode == mc.languageCode && a.mod == mod
    ensures var d := mc.setCultureData(DefaultCultureData);
            a.fallbackCulture == d.fallbackCulture && a.hasSubtitle == d.hasSubtitle
            && a.hasDescription == d.hasDescription
    ensures var g := mc.setGrammarData(DefaultGrammarChoice);
            a.grammarData.pluralizationRule == g.pluralizationStyle
            && a.grammarData.adjectiveOrder == g.adjectiveOrder
    ensures a.grammarData.customPluralizationRule.Some? <==> a.grammarData.pluralizationRule == StyleCustom
    ensures a.grammarData.customPluralizationRule.Some? ==>
              a.grammarData.customPluralizationRule.value == mc.customPluralizationRule
    ensures a.grammarData.contextChangesAdjective.Some? <==> mc.overridesContextCuller
    ensures a.grammarData.contextChangesAdjective.Some? ==>
              a.grammarData.contextChangesAdjective.value == mc.contextChangesAdjective
    ensures a.available.Some? <==> mc.overridesAvailability
    ensures a.available.Some? ==> a.available.value == mc.isAvailable
    ensures a.buttonDrawData.hijackPanelDraw.Some? <==> mc.overridesPanelDraw
    ensures a.buttonDrawData.sheet == mc.setButtonDrawData(DefaultDrawChoice).sheet
    ensures a.buttonDrawData.sheetFrameCount >= 1 && a.buttonDrawData.sheetFrame >= 0
  {
    var data := mc.setCultureData(DefaultCultureData);
    var grammar := mc.setGrammarData(DefaultGrammarChoice);
    var hasCustomPluralizationRule := grammar.pluralizationStyle == StyleCustom;
    var grammarData := NewGrammarData(grammar.pluralizationStyle,
                                      if hasCustomPluralizationRule then Some(mc.customPluralizationRule) else None,
                                      grammar.adjectiveOrder,
                                      if mc.overridesContextCuller then Some(mc.contextChangesAdjective) else None);
    var draw := mc.setButtonDrawData(DefaultDrawChoice);
    var drawData := NewButtonDrawData(draw.sheet, draw.sheetFrameCount, draw.sheetFrame,
                                      if mc.overridesPanelDraw then Some(mc.preDrawButtonPanel) else None);
    CultureArgs(mc.name, mc.languageCode, data.fallbackCulture, data.hasSubtitle, data.hasDescription,
                grammarData, if mc.overridesAvailability then Some(mc.isAvailable) else None, drawData, mod)
  }

  /** A template that overrides nothing registers with English as its fallback, a subtitle,
      no description, the Simple style with the zero order and no hooks, and the flag sheet's
      28 frames from frame 0. Unlike a direct `RegisterCulture` call with the default grammar
      data, whose zero-initialised style is 0, the style is Simple. */
  lemma BaseTemplateArgs(typeId: TypeId, name: string, languageCode: Option<string>, mod: Option<ModRef>)
    ensures AutoloadArgs(BaseModCulture(typeId, name, languageCode), mod)
            == CultureArgs(name, languageCode, English, true, false,
                           GrammarData(StyleSimple, None, DefaultOrder, None), None,
                           LanguageButtonDrawData(None, FlagsCount, 0, None), mod)
    ensures AutoloadArgs(BaseModCulture(typeId, name, languageCode), mod).grammarData != ZeroGrammarData
  {
    var mc := BaseModCulture(typeId, name, languageCode);
    assert mc.setCultureData(DefaultCultureData) == DefaultCultureData;
    assert mc.setGrammarData(DefaultGrammarChoice) == DefaultGrammarChoice;
    assert mc.setButtonDrawData(DefaultDrawChoice) == DefaultDrawChoice;
  }

  /** `ModCulture.Register` as a step over the autoloaded map and the registry tables: the map
      is created if null; a type already in it changes nothing; otherwise the culture is
      registered and its type mapped to the stored culture's legacy id. A refused
      registration propagates its exception, the map having been created. */
  function AutoloadStep(autoloaded: Option<map<TypeId, int>>, t: RegistryTables, open: bool, native: bool,
                        mc: ModCulture, mod: Option<ModRef>)
    : (s: (Result<(), Exception>, Option<map<TypeId, int>>, RegistryTables))
    ensures s.1.Some?
  {
    var registry := if autoloaded.None? then map[] else autoloaded.value;
    if mc.typeId in registry then (Ok(()), Some(registry), t)
    else Recorded(registry, mc.typeId, RegisterStep(t, open, native, AutoloadArgs(mc, mod)))
  }

  /** `.Culture.LegacyId` of the entry in slot `i`: out of range or a null culture throws. */
  function SlotLegacyId(cultures: seq<MoreLocalesCulture>, i: int): (r: Result<int, Exception>)
    ensures r.Ok? <==> 0 <= i < |cultures| && cultures[i].culture.Some?
    ensures r.Ok? ==> r.value == cultures[i].culture.value.legacyId
  {
    if !(0 <= i < |cultures|) then Err(IndexOutOfRange)
    else if cultures[i].culture.None? then Err(NullReference)
    else Ok(cultures[i].culture.value.legacyId)
  }

  /** The end of `Register` after the registration call: its exception propagates, or the
      type is mapped to the legacy id of the culture in the returned slot. */
  function Recorded(registry: map<TypeId, int>, typeId: TypeId, step: (Result<int, Exception>, RegistryTables))
    : (s: (Result<(), Exception>, Option<map<TypeId, int>>, RegistryTables))
  {
    if step.0.Err? then (Err(step.0.error), Some(registry), step.1)
    else
      var legacyId := SlotLegacyId(step.1.cultures, step.0.value);
      if legacyId.Err? then (Err(legacyId.error), Some(registry), step.1)
      else (Ok(()), Some(registry[typeId := legacyId.value]), step.1)
  }

  /** A successful registration returns the slot it wrote, which holds a host culture. */
  lemma RegisterStepStores(t: RegistryTables, open: bool, native: bool, a: CultureArgs)
    ensures var s := RegisterStep(t, open, native, a);
            s.0.Ok? ==> 0 <= s.0.value == t.count < |s.1.cultures| && s.1.cultures[t.count].culture.Some?
                        && t.count in s.1.legacy && s.1.cultures[t.count].culture.value == s.1.legacy[t.count]
  {
    var s := RegisterStep(t, open, native, a);
    if s.0.Ok? {
      var adopted := Adopt(t, a.languageCode, false);
      assert s.1 == StoreEntry(adopted.1, EntryOf(adopted.0.value, a));
    }
  }

  /** A type already in the map: nothing changes but the creation of a null map. */
  lemma AutoloadPresentUnchanged(autoloaded: Option<map<TypeId, int>>, t: RegistryTables, open: bool, native: bool,
                                 mc: ModCulture, mod: Option<ModRef>)
    requires autoloaded.Some? && mc.typeId in autoloaded.value
    ensures AutoloadStep(autoloaded, t, open, native, mc, mod) == (Ok(()), autoloaded, t)
  {
  }

  /** A new type: the step fails exactly when its registration fails, with the same exception
      and the same tables; on success the map gains exactly this type, under the slot the
      registration wrote, and the tables stay valid with the template's entry in that slot. */
  lemma AutoloadNewType(autoloaded: Option<map<TypeId, int>>, t: RegistryTables, open: bool, native: bool,
                        mc: ModCulture, mod: Option<ModRef>)
    requires TablesValid(t)
    requires autoloaded.None? || mc.typeId !in autoloaded.value
    ensures var s := AutoloadStep(autoloaded, t, open, native, mc, mod);
            var step := RegisterStep(t, open, native, AutoloadArgs(mc, mod));
            var before := if autoloaded.None? then map[] else autoloaded.value;
            && s.2 == step.1 && TablesValid(s.2)
            && (s.0.Err? <==> step.0.Err?)
            && (s.0.Err? ==> s.0.error == step.0.error && s.1 == Some(before))
            && (s.0.Ok? ==> s.1 == Some(before[mc.typeId := t.count])
                            && s.2.count == t.count + 1
                            && s.2.cultures[t.count] == EntryOf(s.2.legacy[t.count], AutoloadArgs(mc, mod)))
  {
    var a := AutoloadArgs(mc, mod);
    RegisterStepOutcomes(t, open, native, a);
    RegisterStepStores(t, open, native, a);
  }

  /** Registering a template twice is registering it once: after a successful step, a second
      one with any template of the same type changes nothing. */
  lemma {:induction false} AutoloadIdempotent(autoloaded: Option<map<TypeId, int>>, t: RegistryTables,
                                              open: bool, native: bool, mc: ModCulture, again: ModCulture,
                                              mod: Option<ModRef>, mod2: Option<ModRef>)
    requires again.typeId == mc.typeId
    requires AutoloadStep(autoloaded, t, open, native, mc, mod).0.Ok?
    ensures var s := AutoloadStep(autoloaded, t, open, native, mc, mod);
            AutoloadStep(s.1, s.2, open, native, again, mod2) == s
  {
    var s := AutoloadStep(autoloaded, t, open, native, mc, mod);
    assert mc.typeId in s.1.value;
    AutoloadPresentUnchanged(s.1, s.2, open, native, again, mod2);
  }

  /** After a successful step on valid tables, looking the type up finds the culture the
      step registered (or found already registered), whose slot holds a host culture. */
  lemma AutoloadThenLookup(autoloaded: Option<map<TypeId, int>>, t: RegistryTables, open: bool, native: bool,
                           mc: ModCulture, mod: Option<ModRef>)
    requires TablesValid(t)
    requires autoloaded.Some? ==> forall k | k in autoloaded.value :: 1 <= autoloaded.value[k] < t.count
    requires AutoloadStep(autoloaded, t, open, native, mc, mod).0.Ok?
    ensures var s := AutoloadStep(autoloaded, t, open, native, mc, mod);
            var found := TryGetCulture(s.1, mc.typeId);
            found.Ok? && found.value.0 && 1 <= found.value.1 < s.2.count
            && s.2.cultures[found.value.1].culture.Some?
            && s.2.cultures[found.value.1].culture.value.legacyId == found.value.1
  {
    var s := AutoloadStep(autoloaded, t, open, native, mc, mod);
    if autoloaded.None? || mc.typeId !in autoloaded.value {
      AutoloadNewType(autoloaded, t, open, native, mc, mod);
    } else {
      assert s.2 == t;
    }
  }

  /** `ModCulture.Register`, against the shared registry: the map is created if null, a type
      already in it returns at once, and otherwise the culture is registered. */
  method Register(mc: ModCulture, reg: CultureRegistry, mod: Option<ModRef> := None) returns (r: Result<(), Exception>)
    modifies reg
    ensures reg.Settings() == old(reg.Settings()).(autoloaded := reg.autoloaded)
    ensures (r, reg.autoloaded, reg.Tables())
            == AutoloadStep(old(reg.autoloaded), old(reg.Tables()), reg.canRegister, reg.registerNative, mc, mod)
  {
    if reg.autoloaded.None? {
      reg.autoloaded := Some(map[]);
    }
    if mc.typeId in reg.autoloaded.value {
      return Ok(());
    }
    r := RegisterUnseen(mc, reg, mod);
  }

  /** The rest of `Register` for a type not in the map: the culture is registered through
      `RegisterCulture` with the template's arguments, and the legacy id of the culture in
      the returned slot recorded under the type. */
  method RegisterUnseen(mc: ModCulture, reg: CultureRegistry, mod: Option<ModRef>) returns (r: Result<(), Exception>)
    requires reg.autoloaded.Some? && mc.typeId !in reg.autoloaded.value
    modifies reg
    ensures reg.Settings() == old(reg.Settings()).(autoloaded := reg.autoloaded)
    ensures (r, reg.autoloaded, reg.Tables())
            == Recorded(old(reg.autoloaded.value), mc.typeId,
                        RegisterStep(old(reg.Tables()), reg.canRegister, reg.registerNative, AutoloadArgs(mc, mod)))
  {
    var a := AutoloadArgs(mc, mod);
    var index :- reg.RegisterCulture(a.internalName, a.languageCode, a.fallbackCulture, a.hasSubtitle,
                                     a.hasDescription, a.grammarData, a.available, a.buttonDrawData, a.mod);
    var legacyId := reg.cultures[index].culture.value.legacyId;
    reg.autoloaded := Some(reg.autoloaded.value[mc.typeId := legacyId]);
    r := Ok(());
  }

  /** The argument of `Equals`: null, a `ModCulture`, or any other object. */
  datatype Object = Null | Template(culture: ModCulture) | OtherObject

  /** `Equals`: another template with the same language code (two null codes compare
      equal, as C# string equality does). */
  predicate Equals(mc: ModCulture, obj: Object)
  {
    obj.Template? && obj.culture.languageCode == mc.languageCode
  }

  /** `ToString`: the language code. */
  function ToString(mc: ModCulture): (s: Option<string>)
    ensures s == mc.languageCode
  {
    mc.languageCode
  }

  /** `GetHashCode`: the string hash of the language code (the host runtime's string hash,
      a parameter here); a null code throws. */
  function GetHashCode(mc: ModCulture, stringHash: string -> int): (h: Result<int, Exception>)
    ensures h.Err? <==> mc.languageCode.None?
    ensures h.Err? ==> h.error == NullReference
  {
    if mc.languageCode.None? then Err(NullReference) else Ok(stringHash(mc.languageCode.value))
  }

  /** Equality is an equivalence on templates, agrees with `ToString`, holds for no other
      object, and equal templates hash equally. */
  lemma EqualsContract(a: ModCulture, b: ModCulture, c: ModCulture, stringHash: string -> int)
    ensures Equals(a, Template(a))
    ensures Equals(a, Template(b)) <==> Equals(b, Template(a))
    ensures Equals(a, Template(b)) && Equals(b, Template(c)) ==> Equals(a, Template(c))
    ensures Equals(a, Template(b)) <==> ToString(a) == ToString(b)
    ensures !Equals(a, Null) && !Equals(a, OtherObject)
    ensures Equals(a, Template(b)) ==> GetHashCode(a, stringHash) == GetHashCode(b, stringHash)
  {
  }
}
