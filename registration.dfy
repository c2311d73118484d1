/** The registry's tables as values, and each registration as a step over them: the table
    indexed by legacy id with its running count, and the host's two culture maps. The registry
    class in `MoreLocalesApi` is specified against these functions. */
module Registration {
  import opened Text
  import opened Enums
  import opened CultureHelper
  import opened Cultures
  import LangFeatures

  /** The arguments of one `RegisterCulture` call. */
  datatype CultureArgs = CultureArgs(
    internalName: string,
    languageCode: Option<string>,
    fallbackCulture: int,
    hasSubtitle: bool,
    hasDescription: bool,
    grammarData: GrammarData,
    available: Option<Availability>,
    buttonDrawData: LanguageButtonDrawData,
    mod: Option<ModRef>)

  /** `extraCulturesV2` and `_registeredCount`, with the host's `_legacyCultures` and
      `_NamedCultures` (the latter keyed by the CultureName value). */
  datatype RegistryTables = RegistryTables(
    cultures: seq<MoreLocalesCulture>,
    count: nat,
    legacy: map<int, GameCulture>,
    named: map<int, GameCulture>)

  /** Slot 0 is the dummy entry, every slot below the count holds the host's culture of its
      own legacy id, the slots from the count on are unwritten, and both host maps key each
      culture by its legacy id. */
  ghost predicate TablesValid(t: RegistryTables)
  {
    1 <= t.count <= |t.cultures|
    && t.cultures[0] == EmptyCulture
    && (forall i | 1 <= i < t.count ::
          i in t.legacy && t.cultures[i].culture == Some(t.legacy[i]))
    && (forall i | t.count <= i < |t.cultures| :: t.cultures[i] == EmptyCulture)
    && (forall k | k in t.legacy :: t.legacy[k].legacyId == k)
    && (forall k | k in t.named :: t.named[k].legacyId == k)
  }

  /** The call may register: `_canRegister`, and either a native registration or a mod other
      than this one. */
  predicate Admitted(open: bool, native: bool, mod: Option<ModRef>)
  {
    open && (native || (mod.Some? && mod.value != MoreLocalesMod))
  }

  /** A code a new host culture can be created from: the current version refuses the empty
      code as well as a missing one, the older version only a missing one. */
  predicate Usable(code: Option<string>, acceptEmpty: bool)
  {
    code.Some? && (acceptEmpty || code.value != "")
  }

  /** Finds or creates the host culture for the next slot. A host culture already under the
      count is adopted as it is. Otherwise a usable code creates one, which records itself in
      the legacy map and is then added to the named map, throwing on a key already there.
      Without either, NullReference. */
  function Adopt(t: RegistryTables, code: Option<string>, acceptEmpty: bool): (s: (Result<GameCulture, Exception>, RegistryTables))
    ensures s.1.cultures == t.cultures && s.1.count == t.count
    ensures s.0 == Err(NullReference) <==> t.count !in t.legacy && !Usable(code, acceptEmpty)
    ensures s.0 == Err(DuplicateKey) <==> t.count !in t.legacy && Usable(code, acceptEmpty) && t.count in t.named
    ensures s.0.Err? ==> s.1.named == t.named
    ensures s.0.Ok? ==> t.count in s.1.legacy && s.1.legacy[t.count] == s.0.value
    ensures t.count in t.legacy ==> s.0.Ok? && s.1 == t
    ensures t.count !in t.legacy && Usable(code, acceptEmpty) ==>
              s.1.legacy == t.legacy[t.count := GameCulture(code.value, t.count)]
    ensures s.0.Ok? && t.count !in t.legacy ==>
              s.1.named == t.named[t.count := GameCulture(code.value, t.count)]
  {
    if t.count in t.legacy then (Ok(t.legacy[t.count]), t)
    else if Usable(code, acceptEmpty) then
      var child := GameCulture(code.value, t.count);
      var created := t.(legacy := t.legacy[t.count := child]);
      if t.count in t.named then (Err(DuplicateKey), created)
      else (Ok(child), created.(named := t.named[t.count := child]))
    else (Err(NullReference), t)
  }

  /** The entry a registration builds around its host culture. */
  function EntryOf(c: GameCulture, a: CultureArgs): MoreLocalesCulture
  {
    MoreLocalesCulture(Some(c), a.internalName, a.fallbackCulture, a.hasSubtitle, a.hasDescription,
                       a.grammarData, a.available, a.buttonDrawData, a.mod)
  }

  /** Writes `e` into slot `count`, first growing a full table to `count + 1` slots (new slots
      are default entries), and advances the count. */
  function StoreEntry(t: RegistryTables, e: MoreLocalesCulture): (u: RegistryTables)
    ensures u.count == t.count + 1 && u.legacy == t.legacy && u.named == t.named
    ensures |u.cultures| == if |t.cultures| > t.count then |t.cultures| else t.count + 1
    ensures u.cultures[t.count] == e
  {
    var grown := if |t.cultures| < t.count + 1
                 then t.cultures + seq(t.count + 1 - |t.cultures|, _ => EmptyCulture)
                 else t.cultures;
    t.(cultures := grown[t.count := e], count := t.count + 1)
  }

  /** Storing keeps every other slot, a slot added by growing being a default entry. */
  lemma StoreEntryKeepsOthers(t: RegistryTables, e: MoreLocalesCulture)
    ensures var u := StoreEntry(t, e);
            forall i | 0 <= i < |u.cultures| && i != t.count ::
              u.cultures[i] == if i < |t.cultures| then t.cultures[i] else EmptyCulture
  {
  }

  /** Adopting keeps the tables valid. */
  lemma AdoptKeepsValid(t: RegistryTables, code: Option<string>, acceptEmpty: bool)
    requires TablesValid(t)
    ensures TablesValid(Adopt(t, code, acceptEmpty).1)
  {
  }

  /** Storing the entry around the host culture under the count keeps the tables valid. */
  lemma StoreEntryKeepsValid(t: RegistryTables, e: MoreLocalesCulture)
    requires TablesValid(t) && t.count in t.legacy && e.culture == Some(t.legacy[t.count])
    ensures TablesValid(StoreEntry(t, e))
  {
    StoreEntryKeepsOthers(t, e);
  }

  /** `MoreLocalesAPI.RegisterCulture` as a step: refused unless admitted, then the host
      culture is adopted or created (an empty code refused), then the entry is stored and its
      slot returned. */
  function RegisterStep(t: RegistryTables, open: bool, native: bool, a: CultureArgs): (Result<int, Exception>, RegistryTables)
  {
    if !Admitted(open, native, a.mod) then (Err(InvalidOperation), t)
    else
      var adopted := Adopt(t, a.languageCode, false);
      if adopted.0.Err? then (Err(adopted.0.error), adopted.1)
      else (Ok(t.count), StoreEntry(adopted.1, EntryOf(adopted.0.value, a)))
  }

  /** The order the older `RegisterCulture` stores, as written: an order equal to the struct's
      default is replaced by `BeforeWithSpace`. `AdjectiveOrder.Before` is built with `new()`,
      so it is the default too and is replaced as well. */
  function LegacyStoredOrderAsWritten(given: AdjectiveOrder): (stored: AdjectiveOrder)
    ensures given != DefaultOrder ==> stored == given
    ensures given == DefaultOrder ==> stored.kind == Before && stored.ConnectorText() == " "
  {
    if given == DefaultOrder then OrderBeforeWithSpace else given
  }

  /** The order the older `RegisterCulture` stores once an omitted order is told apart from
      an explicit `Before`: only an omitted one becomes `BeforeWithSpace`. */
  function LegacyStoredOrder(given: Option<AdjectiveOrder>): (stored: AdjectiveOrder)
    ensures given.Some? ==> stored == given.value
    ensures given.None? ==> stored == OrderBeforeWithSpace
  {
    if given.Some? then given.value else OrderBeforeWithSpace
  }

  /** As written, an explicit `AdjectiveOrder.Before` (as the older built-ins pass for
      Chinese, Japanese and Traditional Chinese) is stored as `BeforeWithSpace`, so the
      adjective and the noun come out with a space between them. */
  lemma ExplicitBeforeGetsSpaceAsWritten(noun: string, adjective: string)
    ensures LegacyStoredOrderAsWritten(OrderBefore) == OrderBeforeWithSpace
    ensures LegacyStoredOrderAsWritten(OrderBefore).Apply(noun, adjective) == adjective + " " + noun
  {
  }

  /** Told apart from an omitted order, an explicit `Before` is stored as it is and renders
      the adjective directly against the noun; an omitted order still gets the space. */
  lemma ExplicitBeforeKept(noun: string, adjective: string)
    ensures LegacyStoredOrder(Some(OrderBefore)).Apply(noun, adjective) == adjective + noun
    ensures LegacyStoredOrder(None).Apply(noun, adjective) == adjective + " " + noun
  {
  }

  /** `ExtraLocalesSupport.RegisterCulture` as a step: no admission checks, only a missing
      code refused, the grammar fields passed one by one with the adjective order substituted
      as written, no availability and the zero draw data. */
  function LegacyRegisterStep(t: RegistryTables, internalName: string, languageCode: Option<string>,
                              fallbackCulture: int, hasSubtitle: bool, hasDescription: bool,
                              pluralizationStyle: int, customPluralizationRule: Option<PluralRule>,
                              adjectiveOrder: AdjectiveOrder, contextChangesAdjective: Option<ContextRule>,
                              mod: Option<ModRef>): (Result<int, Exception>, RegistryTables)
  {
    var grammar := GrammarData(pluralizationStyle, customPluralizationRule,
                               LegacyStoredOrderAsWritten(adjectiveOrder), contextChangesAdjective);
    var a := CultureArgs(internalName, languageCode, fallbackCulture, hasSubtitle, hasDescription,
                         grammar, None, ZeroButtonDrawData, mod);
    var adopted := Adopt(t, languageCode, true);
    if adopted.0.Err? then (Err(adopted.0.error), adopted.1)
    else (Ok(t.count), StoreEntry(adopted.1, EntryOf(adopted.0.value, a)))
  }

  /** What a registration promises: validity is kept; it is refused exactly when not
      admitted, changing nothing; it throws NullReference exactly when there is neither a host
      culture under the count nor a usable code, and DuplicateKey exactly when a new culture's
      id is already named; a failure leaves the table, the count and the named map alone; a
      success stores the entry around the host's culture under the old count, keeps every
      other slot, grows a full table by one and advances the count by one. */
  lemma RegisterStepOutcomes(t: RegistryTables, open: bool, native: bool, a: CultureArgs)
    requires TablesValid(t)
    ensures TablesValid(RegisterStep(t, open, native, a).1)
    ensures RegisterStep(t, open, native, a).0 == Err(InvalidOperation) <==> !Admitted(open, native, a.mod)
    ensures !Admitted(open, native, a.mod) ==> RegisterStep(t, open, native, a).1 == t
    ensures Admitted(open, native, a.mod) ==>
              (RegisterStep(t, open, native, a).0 == Err(NullReference) <==>
                 t.count !in t.legacy && !Usable(a.languageCode, false))
    ensures Admitted(open, native, a.mod) ==>
              (RegisterStep(t, open, native, a).0 == Err(DuplicateKey) <==>
                 t.count !in t.legacy && Usable(a.languageCode, false) && t.count in t.named)
    ensures var s := RegisterStep(t, open, native, a);
            s.0.Err? ==> s.1.cultures == t.cultures && s.1.count == t.count && s.1.named == t.named
    ensures var s := RegisterStep(t, open, native, a);
            s.0.Ok? ==> s.0.value == t.count && s.1.count == t.count + 1
                        && t.count in s.1.legacy
                        && s.1.cultures[t.count] == EntryOf(s.1.legacy[t.count], a)
                        && s.1.cultures[..t.count] == t.cultures[..t.count]
                        && |s.1.cultures| == if |t.cultures| > t.count then |t.cultures| else t.count + 1
  {
    var s := RegisterStep(t, open, native, a);
    if Admitted(open, native, a.mod) {
      var adopted := Adopt(t, a.languageCode, false);
      AdoptKeepsValid(t, a.languageCode, false);
      if s.0.Ok? {
        assert s.1 == StoreEntry(adopted.1, EntryOf(adopted.0.value, a));
        StoreEntryKeepsValid(adopted.1, EntryOf(adopted.0.value, a));
        StoreEntryKeepsOthers(adopted.1, EntryOf(adopted.0.value, a));
        assert s.1.cultures[..t.count] == t.cultures[..t.count];
      }
    }
  }

  /** The older registration keeps validity too; it refuses exactly a missing code where no
      host culture exists, and on success stores the entry under the old count with the
      substituted adjective order. */
  lemma LegacyRegisterStepOutcomes(t: RegistryTables, internalName: string, languageCode: Option<string>,
                                   fallbackCulture: int, hasSubtitle: bool, hasDescription: bool,
                                   pluralizationStyle: int, customPluralizationRule: Option<PluralRule>,
                                   adjectiveOrder: AdjectiveOrder, contextChangesAdjective: Option<ContextRule>,
                                   mod: Option<ModRef>)
    requires TablesValid(t)
    ensures var s := LegacyRegisterStep(t, internalName, languageCode, fallbackCulture, hasSubtitle, hasDescription,
                                        pluralizationStyle, customPluralizationRule, adjectiveOrder,
                                        contextChangesAdjective, mod);
            TablesValid(s.1)
            && (s.0 == Err(NullReference) <==> t.count !in t.legacy && languageCode.None?)
            && (s.0 == Err(DuplicateKey) <==> t.count !in t.legacy && languageCode.Some? && t.count in t.named)
            && (s.0.Err? ==> s.1.cultures == t.cultures && s.1.count == t.count && s.1.named == t.named)
            && (s.0.Ok? ==> s.0.value == t.count && s.1.count == t.count + 1
                            && t.count in s.1.legacy
                            && s.1.cultures[t.count].culture == Some(s.1.legacy[t.count])
                            && s.1.cultures[t.count].grammarData.adjectiveOrder == LegacyStoredOrderAsWritten(adjectiveOrder)
                            && s.1.cultures[..t.count] == t.cultures[..t.count])
  {
    var s := LegacyRegisterStep(t, internalName, languageCode, fallbackCulture, hasSubtitle, hasDescription,
                                pluralizationStyle, customPluralizationRule, adjectiveOrder,
                                contextChangesAdjective, mod);
    var adopted := Adopt(t, languageCode, true);
    AdoptKeepsValid(t, languageCode, true);
    if s.0.Ok? {
      var e := s.1.cultures[t.count];
      StoreEntryKeepsValid(adopted.1, e);
      StoreEntryKeepsOthers(adopted.1, e);
      assert s.1.cultures[..t.count] == t.cultures[..t.count];
    }
  }

  /** The older version accepts the empty code where the current one refuses it. */
  lemma EmptyCodeVersions(t: RegistryTables, native: bool, a: CultureArgs)
    requires TablesValid(t) && t.count !in t.legacy && t.count !in t.named
    requires Admitted(true, native, a.mod) && a.languageCode == Some("")
    ensures RegisterStep(t, true, native, a).0 == Err(NullReference)
    ensures LegacyRegisterStep(t, a.internalName, a.languageCode, a.fallbackCulture, a.hasSubtitle,
                               a.hasDescription, StyleSimple, None, DefaultOrder, None, a.mod).0 == Ok(t.count)
  {
  }

  // The built-in registrations of `RegisterVanillaCultures` and `RegisterNativeCustomCultures`.

  /** The language code each native registration passes. */
  function NativeCode(id: int): (code: string)
    requires BritishEnglish <= id <= Indonesian
    ensures |code| >= 5 && code[2] == '-'
  {
    if id == BritishEnglish then "en-GB" else if id == Japanese then "ja-JP"
    else if id == Korean then "ko-KR" else if id == TraditionalChinese then "zh-Hant"
    else if id == Turkish then "tr-TR" else if id == Thai then "th-TH"
    else if id == Ukrainian then "uk-UA" else if id == MexicanSpanish then "es-MX"
    else if id == Czech then "cs-CZ" else if id == Hungarian then "hu-HU"
    else if id == PortugalPortuguese then "pt-PT" else if id == Swedish then "sv-SE"
    else if id == Dutch then "nl-NL" else if id == Danish then "da-DK"
    else if id == Vietnamese then "vi-VN" else if id == Finnish then "fi-FI"
    else if id == Romanian then "ro-RO" else "id-ID"
  }

  /** The fallback each native registration passes: the vanilla culture a regional variant
      borrows from, English otherwise. */
  function NativeFallback(id: int): int
    requires BritishEnglish <= id <= Indonesian
  {
    if id == TraditionalChinese then Chinese
    else if id == Ukrainian then Russian
    else if id == MexicanSpanish then Spanish
    else if id == PortugalPortuguese then Portuguese
    else English
  }

  /** The grammar each vanilla registration passes. */
  function VanillaGrammar(id: int): GrammarData
    requires English <= id <= Polish
  {
    var basicRomance := OrderContext(OrderAfterWithSpace, LangFeatures.GpChangesWhenNotDefault);
    if id == English then Context(LangFeatures.GpNeverChanges)
    else if id == German then Context(LangFeatures.GpChangesWhenNotDefault)
    else if id == French then
      StyleOrderContext(StyleSimpleWithSingularZero, OrderAfterWithSpace, LangFeatures.GpChangesWhenNotDefault)
    else if id == Russian then StyleContext(StyleRussianThreeway, LangFeatures.GpChangesWhenNotDefault)
    else if id == Chinese then StyleOrderContext(StyleNone, OrderBefore, LangFeatures.GpNeverChanges)
    else if id == Polish then StyleContext(StylePolishThreeway, LangFeatures.GpChangesWhenNotDefault)
    else basicRomance
  }

  /** The grammar each native registration passes; the cultures registered without one get
      the zero-initialised default. */
  function NativeGrammar(id: int): GrammarData
    requires BritishEnglish <= id <= Indonesian
  {
    var basicRomance := OrderContext(OrderAfterWithSpace, LangFeatures.GpChangesWhenNotDefault);
    if id == BritishEnglish then Context(LangFeatures.GpNeverChanges)
    else if id == Japanese || id == TraditionalChinese then StyleOrder(StyleNone, OrderBefore)
    else if id == Korean then NewGrammarData(StyleNone)
    else if id == Turkish then NewGrammarData(StyleCustom, Some(TurkishPlural))
    else if id == Thai then StyleOrder(StyleNone, OrderAfter)
    else if id == Ukrainian then NewGrammarData(StyleRussianThreeway)
    else if id == MexicanSpanish || id == PortugalPortuguese then basicRomance
    else if id == Czech then NewGrammarData(StyleCustom, Some(CzechPlural))
    else if id == Vietnamese || id == Indonesian then StyleOrder(StyleNone, OrderAfterWithSpace)
    else if id == Romanian then NewGrammarData(StyleCustom, Some(RomanianPlural), OrderAfterWithSpace)
    else ZeroGrammarData
  }

  /** The arguments of the built-in registration of `id`: a vanilla culture by name with the
      flag frame `id`; a native one also with its code, its fallback, its subtitle flag (all
      but Vietnamese) and this mod as owner. */
  function BuiltInArgs(id: int): CultureArgs
    requires English <= id <= Indonesian
  {
    var draw := NewButtonDrawData(sheetFrame := Some(id));
    if id <= Polish then
      CultureArgs(CultureNameOf(id), None, English, true, false, VanillaGrammar(id), None, draw, None)
    else
      CultureArgs(CultureNameOf(id), Some(NativeCode(id)), NativeFallback(id), id != Vietnamese, false,
                  NativeGrammar(id), None, draw, Some(MoreLocalesMod))
  }

  /** The host culture under `id` once the built-in registrations are done: the host's own
      for a vanilla id, the one created from the registered code otherwise. */
  function HostCulture(id: int): (c: GameCulture)
    requires English <= id <= Indonesian
    ensures c.legacyId == id
  {
    if id <= Polish then VanillaHostCultures[id] else GameCulture(NativeCode(id), id)
  }

  /** The last id the host maps hold after the built-in registrations up to `n`. */
  function HostsTop(n: int): int
  {
    if n <= Polish then Polish else n
  }

  /** Either host map after the built-in registrations up to `n`. */
  function HostsUpTo(n: int): map<int, GameCulture>
    requires n <= Indonesian
  {
    map k | English <= k <= HostsTop(n) :: HostCulture(k)
  }

  /** The entry the built-in registrations store under `id`. */
  function BuiltInEntry(id: int): MoreLocalesCulture
    requires English <= id <= Indonesian
  {
    EntryOf(HostCulture(id), BuiltInArgs(id))
  }

  /** The tables after the built-in registrations up to `n`, started from the initial state:
      the 28-slot table with slots 1..n written, and the count one past `n`. */
  function BuiltTables(n: int): RegistryTables
    requires 0 <= n <= Indonesian
  {
    RegistryTables(seq(FlagsCount, i => if English <= i <= n then BuiltInEntry(i) else EmptyCulture),
                   n + 1, HostsUpTo(n), HostsUpTo(n))
  }

  /** The initial state (28 default slots, count 1, the host's nine cultures in both maps) is
      the state with no built-in registration done. */
  lemma InitialIsBuiltZero()
    ensures BuiltTables(0) == RegistryTables(seq(FlagsCount, _ => EmptyCulture), 1, VanillaHostCultures, VanillaHostCultures)
    ensures TablesValid(BuiltTables(0))
  {
    VanillaHostCulturesShape();
    forall k
      ensures k in HostsUpTo(0) <==> k in VanillaHostCultures
    {
      assert HostsTop(0) == Polish;
    }
    assert HostsUpTo(0) == VanillaHostCultures;
  }

  /** The registrations from `k` to `last`, in order, stopping at the first exception. */
  function RunFrom(t: RegistryTables, open: bool, native: bool, k: int, last: int): (Result<(), Exception>, RegistryTables)
    requires English <= k && last <= Indonesian
    decreases last - k + 1
  {
    if k > last then (Ok(()), t)
    else
      var s := RegisterStep(t, open, native, BuiltInArgs(k));
      if s.0.Err? then (Err(s.0.error), s.1) else RunFrom(s.1, open, native, k + 1, last)
  }

  /** One built-in registration, open and native, from the tables of the ones before it
      stores its entry in slot `n` and returns `n`: a vanilla one adopts the host's culture,
      a native one creates its culture in both host maps. */
  lemma BuiltInStep(n: int)
    requires English <= n <= Indonesian
    ensures RegisterStep(BuiltTables(n - 1), true, true, BuiltInArgs(n)) == (Ok(n), BuiltTables(n))
  {
    var t := BuiltTables(n - 1);
    var a := BuiltInArgs(n);
    var adopted := Adopt(t, a.languageCode, false);
    if n <= Polish {
      assert n in t.legacy;
      assert adopted == (Ok(HostCulture(n)), t);
      assert HostsUpTo(n - 1) == HostsUpTo(n);
    } else {
      assert n !in t.legacy && n !in t.named;
      assert HostsUpTo(n - 1)[n := HostCulture(n)] == HostsUpTo(n);
      assert adopted.0 == Ok(HostCulture(n));
    }
    var stored := StoreEntry(adopted.1, EntryOf(HostCulture(n), a));
    assert stored.cultures == BuiltTables(n).cultures;
  }

  /** The built-in registrations from `k` to `last`, open and native, run from the tables of
      the ones before `k` without an exception to the tables of all up to `last`. */
  lemma {:induction false} BuiltInRun(k: int, last: int)
    requires English <= k <= last + 1 && last <= Indonesian
    ensures RunFrom(BuiltTables(k - 1), true, true, k, last) == (Ok(()), BuiltTables(last))
    decreases last - k
  {
    if k <= last {
      BuiltInStep(k);
      BuiltInRun(k + 1, last);
    }
  }

  /** With registration closed, a run changes nothing and throws InvalidOperation. */
  lemma ClosedRunRefused(t: RegistryTables, native: bool, k: int, last: int)
    requires English <= k <= last <= Indonesian
    ensures RunFrom(t, false, native, k, last) == (Err(InvalidOperation), t)
  {
  }

  /** A run keeps the tables valid, whether it completes or stops at an exception. */
  lemma {:induction false} RunKeepsValid(t: RegistryTables, open: bool, native: bool, k: int, last: int)
    requires TablesValid(t) && English <= k && last <= Indonesian
    ensures TablesValid(RunFrom(t, open, native, k, last).1)
    decreases last - k + 1
  {
    if k <= last {
      var s := RegisterStep(t, open, native, BuiltInArgs(k));
      RegisterStepOutcomes(t, open, native, BuiltInArgs(k));
      if s.0.Ok? {
        RunKeepsValid(s.1, open, native, k + 1, last);
      }
    }
  }

  /** The registrations of `DoLoad`, with native registration open: the vanilla run, then,
      unless it threw, the native run. */
  function LoadRun(t: RegistryTables, open: bool): (Result<(), Exception>, RegistryTables)
  {
    var vanilla := RunFrom(t, open, true, English, Polish);
    if vanilla.0.Err? then vanilla else RunFrom(vanilla.1, open, true, BritishEnglish, Indonesian)
  }

  /** From the initial state with registration open, loading registers all 27 built-in
      cultures without an exception. */
  lemma BuiltInLoad()
    ensures LoadRun(BuiltTables(0), true) == (Ok(()), BuiltTables(Indonesian))
  {
    BuiltInRun(English, Polish);
    BuiltInRun(BritishEnglish, Indonesian);
  }

  /** With registration closed, loading registers nothing and throws InvalidOperation. */
  lemma ClosedLoadRefused(t: RegistryTables)
    ensures LoadRun(t, false) == (Err(InvalidOperation), t)
  {
    ClosedRunRefused(t, true, English, Polish);
  }

  /** After all 27 built-in registrations: the count has reached 28, the table's initial
      length, so nothing was resized; slot `i` holds the culture whose enum value is `i`,
      under its enum name; the first nine are vanilla and the rest native; and the tables
      are valid. */
  lemma BuiltInTableShape()
    ensures var t := BuiltTables(Indonesian);
            t.count == |t.cultures| == FlagsCount
            && TablesValid(t)
            && (forall i | English <= i < t.count ::
                  t.cultures[i].culture.Some? && t.cultures[i].culture.value.legacyId == i
                  && t.cultures[i].name == CultureNameOf(i)
                  && (t.cultures[i].Vanilla() <==> i <= Polish)
                  && (t.cultures[i].NativeCustom() <==> i >= BritishEnglish))
  {
    var t := BuiltTables(Indonesian);
    assert t.cultures[0] == EmptyCulture;
    forall i | English <= i < t.count
      ensures i in t.legacy && t.cultures[i].culture == Some(t.legacy[i])
    {
    }
  }

  /** The fallbacks the built-in table feeds to the language reload: Traditional Chinese
      borrows Chinese, Ukrainian Russian, Mexican Spanish Spanish and Portugal Portuguese
      Portuguese; every other built-in culture has no fallback. */
  lemma BuiltInFallbacks(id: int)
    requires English <= id <= Indonesian
    ensures var t := BuiltTables(Indonesian);
            FallbackFor(t.cultures, t.legacy, id)
              == if id == TraditionalChinese then Ok(Some(HostCulture(Chinese)))
                 else if id == Ukrainian then Ok(Some(HostCulture(Russian)))
                 else if id == MexicanSpanish then Ok(Some(HostCulture(Spanish)))
                 else if id == PortugalPortuguese then Ok(Some(HostCulture(Portuguese)))
                 else Ok(None)
  {
  }

  /** The plural rule the patched host switch receives for each built-in culture: vanilla
      ids map to themselves; Turkish, Czech and Romanian to the extra Custom case; each other
      native culture to its style, which is 0 (no style at all) for the five registered
      without grammar data. */
  lemma BuiltInPluralization(id: int)
    requires English <= id <= Indonesian
    ensures var t := BuiltTables(Indonesian);
            MapLegacyIdToPluralizationId(t.cultures, id)
              == if id <= Polish then Ok(id)
                 else if id in {Turkish, Czech, Romanian} then Ok(StyleCustom)
                 else if id in {Hungarian, Swedish, Dutch, Danish, Finnish} then Ok(0)
                 else if id == BritishEnglish then Ok(StyleSimple)
                 else if id == Ukrainian then Ok(StyleRussianThreeway)
                 else if id in {MexicanSpanish, PortugalPortuguese} then Ok(StyleSimple)
                 else Ok(StyleNone)
  {
  }
}
