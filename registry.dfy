/** The culture registry (`MoreLocalesAPI`, and the older `ExtraLocalesSupport` where it
    differs): the table indexed by legacy id with its running count, the built-in
    registrations, the save record and its loader, the settings-save hook, unregistration and
    the lookup of autoloaded cultures. The host's culture maps, its active culture, its own
    saved language and the contents of the data file are fields of the registry. */
module MoreLocalesApi {
  import opened Text
  import opened Enums
  import opened CultureHelper
  import opened Cultures
  import opened Registration
  import LangFeatures

  /** The contents of the data file as the loaders see them. */
  datatype SaveFile =
    | NoFile
      /** The oldest format: one byte holding a legacy id. */
    | OneByte(id: int)
      /** The version byte followed by the active culture's language code. */
    | Versioned(version: int, languageCode: string)

  /** The version byte the current format writes. */
  const FileVersion := 0

  /** The type of an autoloaded culture. */
  datatype TypeId = TypeId(fullName: string)

  /** The registry's fields other than its tables. */
  datatype RegistrySettings = RegistrySettings(
    canRegister: bool, registerNative: bool, loadedCulture: int, cachedVanillaCulture: int,
    autoloaded: Option<map<TypeId, int>>, activeCulture: GameCulture, hostLanguage: int, dataFile: SaveFile)

  /** What a load leaves behind: the exception it threw, if any, the `loadedCulture` field
      and the host's active culture. */
  datatype LoadOutcome = LoadOutcome(error: Option<Exception>, loaded: int, active: GameCulture)

  /** The first slot from `i` on whose culture has language code `code` (its legacy id), or
      `None`; an empty slot met on the way throws, as reading `.Name` of a null culture does. */
  function FirstMatch(cultures: seq<MoreLocalesCulture>, code: string, i: nat): (r: Result<Option<int>, Exception>)
    ensures r.Err? ==> r.error == NullReference
    decreases |cultures| - i
  {
    if i >= |cultures| then Ok(None)
    else if cultures[i].culture.None? then Err(NullReference)
    else if cultures[i].culture.value.name == code then Ok(Some(cultures[i].culture.value.legacyId))
    else FirstMatch(cultures, code, i + 1)
  }

  /** The search finds slot `id` when it holds the code and every slot before it, from `i`
      on, holds another code. */
  lemma {:induction false} FirstMatchFinds(cultures: seq<MoreLocalesCulture>, code: string, i: nat, id: int)
    requires i <= id < |cultures| && cultures[id].culture.Some? && cultures[id].culture.value.name == code
    requires forall j | i <= j < id :: cultures[j].culture.Some? && cultures[j].culture.value.name != code
    ensures FirstMatch(cultures, code, i) == Ok(Some(cultures[id].culture.value.legacyId))
    decreases id - i
  {
    if i < id {
      FirstMatchFinds(cultures, code, i + 1, id);
    }
  }

  /** The search finds nothing when every slot from `i` on holds another code. */
  lemma {:induction false} FirstMatchNone(cultures: seq<MoreLocalesCulture>, code: string, i: nat)
    requires forall j | i <= j < |cultures| :: cultures[j].culture.Some? && cultures[j].culture.value.name != code
    ensures FirstMatch(cultures, code, i) == Ok(None)
    decreases |cultures| - i
  {
    if i < |cultures| {
      FirstMatchNone(cultures, code, i + 1);
    }
  }

  /** `SetLanguage(extraCulturesV2[loaded].Culture)`. */
  function SetLanguageTo(cultures: seq<MoreLocalesCulture>, loaded: int, active: GameCulture): (o: LoadOutcome)
    ensures o.loaded == loaded
    ensures o.error.None? <==> 0 <= loaded < |cultures| && cultures[loaded].culture.Some?
    ensures o.error.None? ==> o.active == cultures[loaded].culture.value
    ensures o.error.Some? ==> o.active == active
  {
    if !(0 <= loaded < |cultures|) then LoadOutcome(Some(IndexOutOfRange), loaded, active)
    else if cultures[loaded].culture.None? then LoadOutcome(Some(NullReference), loaded, active)
    else LoadOutcome(None, loaded, cultures[loaded].culture.value)
  }

  /** The one-byte branch of the current loader: an invalid id is ignored, one past the last
      built-in culture becomes the active culture's id, and a vanilla id is only recorded. */
  function LoadOneByte(cultures: seq<MoreLocalesCulture>, b: int, loaded: int, active: GameCulture): LoadOutcome
  {
    if !IsValid(b, |cultures|) then LoadOutcome(None, loaded, active)
    else
      var l := if b > Indonesian then active.legacyId else b;
      if l < BritishEnglish then LoadOutcome(None, l, active)
      else SetLanguageTo(cultures, l, active)
  }

  /** `LoadCustomCultureData` of the current version as written: when no slot holds the
      saved code, `loadedCulture` keeps its value and is still used as an index. */
  function LoadSpecAsWritten(cultures: seq<MoreLocalesCulture>, file: SaveFile, loaded: int, active: GameCulture): LoadOutcome
  {
    match file
    case NoFile => LoadOutcome(None, loaded, active)
    case OneByte(b) => LoadOneByte(cultures, b, loaded, active)
    case Versioned(_, code) =>
      match FirstMatch(cultures, code, 1)
      case Err(e) => LoadOutcome(Some(e), loaded, active)
      case Ok(m) => SetLanguageTo(cultures, if m.Some? then m.value else loaded, active)
  }

  /** `LoadCustomCultureData` of the current version, with a saved code that no slot holds
      ignored like a missing file. */
  function LoadSpec(cultures: seq<MoreLocalesCulture>, file: SaveFile, loaded: int, active: GameCulture): LoadOutcome
  {
    match file
    case NoFile => LoadOutcome(None, loaded, active)
    case OneByte(b) => LoadOneByte(cultures, b, loaded, active)
    case Versioned(_, code) =>
      match FirstMatch(cultures, code, 1)
      case Err(e) => LoadOutcome(Some(e), loaded, active)
      case Ok(None) => LoadOutcome(None, loaded, active)
      case Ok(Some(id)) => SetLanguageTo(cultures, id, active)
  }

  /** `LoadCustomCultureData` of the older version: the first byte is a legacy id, loaded
      when valid and ignored otherwise. */
  function LoadSpecLegacy(cultures: seq<MoreLocalesCulture>, file: SaveFile, loaded: int, active: GameCulture): LoadOutcome
  {
    var b := match file
             case NoFile => 0
             case OneByte(id) => id
             case Versioned(version, _) => version;
    if file.NoFile? || !IsValid(b, |cultures|) then LoadOutcome(None, loaded, active)
    else SetLanguageTo(cultures, b, active)
  }

  /** `SaveCustomCultureData` of the current version as written: a record is written only
      while a custom culture is active; otherwise the file keeps what it held. */
  function SaveSpecAsWritten(cultures: seq<MoreLocalesCulture>, file: SaveFile, active: GameCulture): (r: Result<SaveFile, Exception>)
    ensures r.Err? <==> IsCustom(cultures, active.legacyId).Err?
    ensures r.Ok? && cultures[active.legacyId].mod.Some? ==> r.value == Versioned(FileVersion, active.name)
    ensures r.Ok? && cultures[active.legacyId].mod.None? ==> r.value == file
  {
    var custom :- IsCustom(cultures, active.legacyId);
    if custom then Ok(Versioned(FileVersion, active.name)) else Ok(file)
  }

  /** The record the current version writes, for every active culture. */
  function SaveRecord(active: GameCulture): (f: SaveFile)
    ensures f.Versioned? && f.version == FileVersion && f.languageCode == active.name
  {
    Versioned(FileVersion, active.name)
  }

  /** `SaveCustomCultureData` of the older version: the `(byte)` cast of the active legacy id,
      always written. */
  function SaveRecordLegacy(active: GameCulture): (f: SaveFile)
    ensures f.OneByte? && 0 <= f.id < 256
    ensures 0 <= active.legacyId < 256 ==> f.id == active.legacyId
  {
    OneByte(active.legacyId % 256)
  }

  /** No two registered cultures share a language code. */
  ghost predicate UniqueCodes(t: RegistryTables)
  {
    forall i, j | 1 <= i < j < t.count && i < |t.cultures| && j < |t.cultures| ::
      t.cultures[i].culture.Some? && t.cultures[j].culture.Some? ==>
        t.cultures[i].culture.value.name != t.cultures[j].culture.value.name
  }

  /** Saving while the registered culture `id` is active and loading again, from any state,
      makes that culture active again and records its id. */
  lemma SaveLoadRoundTrip(t: RegistryTables, id: int, loaded: int, active: GameCulture)
    requires TablesValid(t) && UniqueCodes(t) && 1 <= id < t.count
    ensures LoadSpec(t.cultures, SaveRecord(t.legacy[id]), loaded, active) == LoadOutcome(None, id, t.legacy[id])
  {
    FirstMatchFinds(t.cultures, t.legacy[id].name, 1, id);
  }

  /** As written, a record saved while a custom culture was active survives a later switch
      to a vanilla culture, since nothing is written then, and the next load switches back
      to the custom culture. */
  lemma StaleRecordAsWritten(t: RegistryTables, j: int, active: GameCulture)
    requires TablesValid(t) && UniqueCodes(t) && 1 <= j < t.count && t.cultures[j].mod.Some?
    requires 1 <= active.legacyId < t.count && t.cultures[active.legacyId].mod.None?
    ensures SaveSpecAsWritten(t.cultures, SaveRecord(t.legacy[j]), active) == Ok(SaveRecord(t.legacy[j]))
    ensures LoadSpec(t.cultures, SaveRecord(t.legacy[j]), Unknown, active).active == t.legacy[j] != active
  {
    SaveLoadRoundTrip(t, j, Unknown, active);
  }

  /** As written, a saved code that no slot of a full table holds (a culture of a mod that is
      no longer loaded) leaves `loadedCulture` at `Unknown`, which indexes past the table. */
  lemma UnmatchedCodeAsWritten(t: RegistryTables, code: string, active: GameCulture)
    requires TablesValid(t) && t.count == |t.cultures| <= Unknown
    requires forall j | 1 <= j < t.count :: t.legacy[j].name != code
    ensures LoadSpecAsWritten(t.cultures, Versioned(FileVersion, code), Unknown, active)
              == LoadOutcome(Some(IndexOutOfRange), Unknown, active)
  {
    FirstMatchNone(t.cultures, code, 1);
  }

  /** A saved code that no slot of a full table holds leaves the language and
      `loadedCulture` as they were. */
  lemma UnmatchedCodeIgnored(t: RegistryTables, code: string, loaded: int, active: GameCulture)
    requires TablesValid(t) && t.count == |t.cultures|
    requires forall j | 1 <= j < t.count :: t.legacy[j].name != code
    ensures LoadSpec(t.cultures, Versioned(FileVersion, code), loaded, active) == LoadOutcome(None, loaded, active)
  {
    FirstMatchNone(t.cultures, code, 1);
  }

  /** The older format round-trips every registered culture whose id fits the byte. */
  lemma LegacyRoundTrip(t: RegistryTables, id: int, loaded: int, active: GameCulture)
    requires TablesValid(t) && 1 <= id < t.count && id < 256
    ensures LoadSpecLegacy(t.cultures, SaveRecordLegacy(t.legacy[id]), loaded, active) == LoadOutcome(None, id, t.legacy[id])
  {
  }

  /** A one-byte file from the older format loads an added culture and is otherwise only
      recorded: a vanilla id leaves the active culture alone. */
  lemma OneByteInCurrentLoader(t: RegistryTables, id: int, loaded: int, active: GameCulture)
    requires TablesValid(t) && 1 <= id < t.count && id <= Indonesian
    ensures id < BritishEnglish ==> LoadSpec(t.cultures, OneByte(id), loaded, active) == LoadOutcome(None, id, active)
    ensures id >= BritishEnglish ==> LoadSpec(t.cultures, OneByte(id), loaded, active) == LoadOutcome(None, id, t.legacy[id])
  {
  }

  /** The legacy ids of the non-vanilla entries among slots 1..n-1. */
  function CustomIds(cultures: seq<MoreLocalesCulture>, n: int): (ids: set<int>)
    requires n <= |cultures|
    ensures forall i | i in ids :: 1 <= i < n && !cultures[i].Vanilla()
  {
    set i | 1 <= i < n && cultures[i].mod.Some?
  }

  /** One more slot adds its id to the custom ids exactly when it is not vanilla. */
  lemma CustomIdsStep(cultures: seq<MoreLocalesCulture>, i: int)
    requires 1 <= i < |cultures|
    ensures CustomIds(cultures, i + 1) == CustomIds(cultures, i) + (if cultures[i].Vanilla() then {} else {i})
  {
  }

  /** Unregistering after the built-in registrations up to any `n` from the last vanilla
      one on (in particular after all of them) leaves the host exactly its own nine
      cultures. */
  lemma UnregisterUndoesBuiltIns(n: int)
    requires Polish <= n <= Indonesian
    ensures HostsUpTo(n) - CustomIds(BuiltTables(n).cultures, FlagsCount) == VanillaHostCultures
  {
    var t := BuiltTables(n);
    var left := HostsUpTo(n) - CustomIds(t.cultures, FlagsCount);
    assert HostsTop(n) == n && HostsTop(0) == Polish;
    forall k
      ensures k in left <==> k in HostsUpTo(0)
    {
      if BritishEnglish <= k <= n {
        assert t.cultures[k] == BuiltInEntry(k);
        assert k in CustomIds(t.cultures, FlagsCount);
      } else if English <= k <= Polish {
        assert t.cultures[k] == BuiltInEntry(k);
        assert k !in CustomIds(t.cultures, FlagsCount);
      }
    }
    assert left == HostsUpTo(0);
    InitialIsBuiltZero();
  }

  /** `TryGetCulture<T>`: the slot registered for the type, or slot 0 and false; before any
      autoloaded registration the map is null and the lookup throws. */
  function TryGetCulture(autoloaded: Option<map<TypeId, int>>, t: TypeId): (r: Result<(bool, int), Exception>)
    ensures autoloaded.None? <==> r == Err(NullReference)
    ensures r.Ok? ==> (r.value.0 <==> t in autoloaded.value)
    ensures r.Ok? && r.value.0 ==> r.value.1 == autoloaded.value[t]
    ensures r.Ok? && !r.value.0 ==> r.value.1 == 0
  {
    if autoloaded.None? then Err(NullReference)
    else if t in autoloaded.value then Ok((true, autoloaded.value[t]))
    else Ok((false, 0))
  }

  class CultureRegistry {
    /** `extraCulturesV2`; slot 0 is a dummy entry. */
    var cultures: seq<MoreLocalesCulture>
    /** `_registeredCount`: the next slot to write. */
    var registeredCount: nat
    var canRegister: bool
    var registerNative: bool
    var loadedCulture: int
    var cachedVanillaCulture: int
    /** `_autoloadedCulturesRegistry`, null until the first autoloaded registration. */
    var autoloaded: Option<map<TypeId, int>>
    /** The host's `GameCulture._legacyCultures`. */
    var legacyCultures: map<int, GameCulture>
    /** The host's `GameCulture._NamedCultures`, keyed by the CultureName value. */
    var namedCultures: map<int, GameCulture>
    /** The host's `LanguageManager.Instance.ActiveCulture`. */
    var activeCulture: GameCulture
    /** The legacy id the host's own settings file records. */
    var hostLanguage: int
    /** The data file on disk. */
    var dataFile: SaveFile

    /** The registry's tables as a value. */
    function Tables(): RegistryTables
      reads this
    {
      RegistryTables(cultures, registeredCount, legacyCultures, namedCultures)
    }

    ghost predicate Valid()
      reads this
    {
      TablesValid(Tables())
    }

    /** The fields registration leaves alone, as a value. */
    function Settings(): RegistrySettings
      reads this
    {
      RegistrySettings(canRegister, registerNative, loadedCulture, cachedVanillaCulture, autoloaded,
                       activeCulture, hostLanguage, dataFile)
    }

    /** The static initial state: 28 default slots, count 1, registration as the loader finds
        it, English as the cached vanilla culture and `Unknown` as the loaded culture. */
    constructor (registrationOpen: bool, hostCultures: map<int, GameCulture>, active: GameCulture,
                 hostSaved: int, file: SaveFile)
      requires forall k | k in hostCultures :: hostCultures[k].legacyId == k
      ensures Valid()
      ensures Tables() == RegistryTables(seq(FlagsCount, _ => EmptyCulture), 1, hostCultures, hostCultures)
      ensures canRegister == registrationOpen && !registerNative
      ensures loadedCulture == Unknown && cachedVanillaCulture == English && autoloaded.None?
      ensures activeCulture == active && hostLanguage == hostSaved && dataFile == file
    {
      cultures := seq(FlagsCount, _ => EmptyCulture);
      registeredCount := 1;
      canRegister := registrationOpen;
      registerNative := false;
      loadedCulture := Unknown;
      cachedVanillaCulture := English;
      autoloaded := None;
      legacyCultures := hostCultures;
      namedCultures := hostCultures;
      activeCulture := active;
      hostLanguage := hostSaved;
      dataFile := file;
    }

    /** Finds or creates the host culture for the next slot. */
    method AdoptChild(languageCode: Option<string>, acceptEmpty: bool) returns (r: Result<GameCulture, Exception>)
      modifies this
      ensures Settings() == old(Settings())
      ensures (r, Tables()) == Adopt(old(Tables()), languageCode, acceptEmpty)
    {
      if registeredCount in legacyCultures {
        r := Ok(legacyCultures[registeredCount]);
      } else if languageCode.Some? && (acceptEmpty || languageCode.value != "") {
        var childCulture := GameCulture(languageCode.value, registeredCount);
        legacyCultures := legacyCultures[registeredCount := childCulture];
        if registeredCount in namedCultures {
          return Err(DuplicateKey);
        }
        namedCultures := namedCultures[registeredCount := childCulture];
        r := Ok(childCulture);
      } else {
        r := Err(NullReference);
      }
    }

    /** Writes `entry` into the next slot, growing a full table by one slot, and advances the
        count. */
    method Store(entry: MoreLocalesCulture) returns (index: int)
      modifies this
      ensures Settings() == old(Settings())
      ensures index == old(registeredCount)
      ensures Tables() == StoreEntry(old(Tables()), entry)
    {
      if |cultures| < registeredCount + 1 {
        cultures := cultures + seq(registeredCount + 1 - |cultures|, _ => EmptyCulture);
      }
      cultures := cultures[registeredCount := entry];
      index := registeredCount;
      registeredCount := registeredCount + 1;
    }

    /** `MoreLocalesAPI.RegisterCulture`, with its default arguments. */
    method RegisterCulture(internalName: string, languageCode: Option<string> := None,
                           fallbackCulture: int := English, hasSubtitle: bool := true,
                           hasDescription: bool := false, grammarData: GrammarData := ZeroGrammarData,
                           available: Option<Availability> := None,
                           buttonDrawData: LanguageButtonDrawData := ZeroButtonDrawData,
                           mod: Option<ModRef> := None)
      returns (r: Result<int, Exception>)
      modifies this
      ensures Settings() == old(Settings())
      ensures (r, Tables()) == RegisterStep(old(Tables()), canRegister, registerNative,
                                            CultureArgs(internalName, languageCode, fallbackCulture, hasSubtitle,
                                                        hasDescription, grammarData, available, buttonDrawData, mod))
      ensures r.Ok? ==> 0 <= r.value < |cultures| && cultures[r.value].culture.Some?
    {
      if !canRegister {
        return Err(InvalidOperation);
      }
      if !registerNative && (mod.None? || mod.value == MoreLocalesMod) {
        return Err(InvalidOperation);
      }
      var childCulture :- AdoptChild(languageCode, false);
      var newCulture := MoreLocalesCulture(Some(childCulture), internalName, fallbackCulture, hasSubtitle,
                                           hasDescription, grammarData, available, buttonDrawData, mod);
      var index := Store(newCulture);
      r := Ok(index);
    }

    /** `ExtraLocalesSupport.RegisterCulture`, with its default arguments: an adjective order
        equal to the struct default (an omitted one, or an explicit `Before`) becomes
        `BeforeWithSpace`. */
    method RegisterCultureLegacy(internalName: string, languageCode: Option<string> := None,
                                 fallbackCulture: int := English, hasSubtitle: bool := true,
                                 hasDescription: bool := false, pluralizationStyle: int := StyleSimple,
                                 customPluralizationRule: Option<PluralRule> := None,
                                 adjectiveOrder: AdjectiveOrder := DefaultOrder,
                                 contextChangesAdjective: Option<ContextRule> := None,
                                 mod: Option<ModRef> := None)
      returns (r: Result<int, Exception>)
      modifies this
      ensures Settings() == old(Settings())
      ensures (r, Tables()) == LegacyRegisterStep(old(Tables()), internalName, languageCode, fallbackCulture,
                                                  hasSubtitle, hasDescription, pluralizationStyle,
                                                  customPluralizationRule, adjectiveOrder,
                                                  contextChangesAdjective, mod)
    {
      var order := adjectiveOrder;
      if order == DefaultOrder {
        order := OrderBeforeWithSpace;
      }
      var childCulture :- AdoptChild(languageCode, true);
      var newCulture := MoreLocalesCulture(Some(childCulture), internalName, fallbackCulture, hasSubtitle,
                                           hasDescription,
                                           GrammarData(pluralizationStyle, customPluralizationRule, order, contextChangesAdjective),
                                           None, ZeroButtonDrawData, mod);
      var index := Store(newCulture);
      r := Ok(index);
    }

    /** One built-in `RegisterCulture` call, with the arguments the source passes for `id`. */
    method RegisterBuiltIn(id: int) returns (r: Result<int, Exception>)
      requires English <= id <= Indonesian
      modifies this
      ensures Settings() == old(Settings())
      ensures (r, Tables()) == RegisterStep(old(Tables()), canRegister, registerNative, BuiltInArgs(id))
    {
      var a := BuiltInArgs(id);
      r := RegisterCulture(a.internalName, a.languageCode, a.fallbackCulture, a.hasSubtitle, a.hasDescription,
                           a.grammarData, a.available, a.buttonDrawData, a.mod);
    }

    /** `RegisterVanillaCultures`: the host's nine cultures in id order. The straight-line
        calls of the source are the iterations of this loop, each passing the arguments the
        source passes for its id. */
    method RegisterVanillaCultures() returns (r: Result<(), Exception>)
      modifies this
      ensures Settings() == old(Settings())
      ensures (r, Tables()) == RunFrom(old(Tables()), canRegister, registerNative, English, Polish)
    {
      for id := English to Polish + 1
        invariant Settings() == old(Settings())
        invariant RunFrom(old(Tables()), canRegister, registerNative, English, Polish)
                    == RunFrom(Tables(), canRegister, registerNative, id, Polish)
      {
        var index :- RegisterBuiltIn(id);
      }
      r := Ok(());
    }

    /** `RegisterNativeCustomCultures`: the eighteen cultures this mod adds, in id order,
        through the `Mod.RegisterCulture` extension, which passes this mod as the owner; as
        above, one iteration per call of the source. */
    method RegisterNativeCustomCultures() returns (r: Result<(), Exception>)
      modifies this
      ensures Settings() == old(Settings())
      ensures (r, Tables()) == RunFrom(old(Tables()), canRegister, registerNative, BritishEnglish, Indonesian)
    {
      for id := BritishEnglish to Indonesian + 1
        invariant Settings() == old(Settings())
        invariant RunFrom(old(Tables()), canRegister, registerNative, BritishEnglish, Indonesian)
                    == RunFrom(Tables(), canRegister, registerNative, id, Indonesian)
      {
        var index :- RegisterBuiltIn(id);
      }
      r := Ok(());
    }

    /** The registration part of `DoLoad`: native registration is opened, the vanilla and the
        native cultures are registered, and native registration is closed again; an exception
        leaves it open. */
    method DoLoad() returns (r: Result<(), Exception>)
      requires Valid()
      modifies this
      ensures Valid() && canRegister == old(canRegister)
      ensures r.Ok? <==> !registerNative
      ensures (r, Tables()) == LoadRun(old(Tables()), old(canRegister))
    {
      registerNative := true;
      RunKeepsValid(Tables(), canRegister, true, English, Polish);
      var u :- RegisterVanillaCultures();
      RunKeepsValid(Tables(), canRegister, true, BritishEnglish, Indonesian);
      u :- RegisterNativeCustomCultures();
      registerNative := false;
      r := Ok(());
    }

    /** `LoadCustomCultureData` of the current version, reading the saved record and
        switching to the culture it names; a code no slot holds is ignored. */
    method LoadCustomCultureData() returns (error: Option<Exception>)
      requires Valid()
      modifies this`loadedCulture, this`activeCulture
      ensures LoadOutcome(error, loadedCulture, activeCulture) == LoadSpec(cultures, dataFile, old(loadedCulture), old(activeCulture))
    {
      error := None;
      if dataFile.NoFile? {
        return;
      }
      if dataFile.OneByte? {
        if !IsValid(dataFile.id, |cultures|) {
          return;
        }
        loadedCulture := dataFile.id;
        if loadedCulture > Indonesian {
          loadedCulture := activeCulture.legacyId;
        }
        if loadedCulture < BritishEnglish {
          return;
        }
      } else {
        var code := dataFile.languageCode;
        var matched := false;
        var i := 1;
        while i < |cultures|
          invariant 1 <= i <= |cultures|
          invariant FirstMatch(cultures, code, i) == FirstMatch(cultures, code, 1)
          invariant loadedCulture == old(loadedCulture)
          decreases |cultures| - i
        {
          var c := cultures[i].culture;
          if c.None? {
            return Some(NullReference);
          }
          if code == c.value.name {
            loadedCulture := c.value.legacyId;
            matched := true;
            break;
          }
          i := i + 1;
        }
        if !matched {
          return;
        }
      }
      if !(0 <= loadedCulture < |cultures|) {
        return Some(IndexOutOfRange);
      }
      var culture := cultures[loadedCulture].culture;
      if culture.None? {
        return Some(NullReference);
      }
      activeCulture := culture.value;
    }

    /** `LoadCustomCultureData` of the older version. */
    method LoadCustomCultureDataLegacy() returns (error: Option<Exception>)
      modifies this`loadedCulture, this`activeCulture
      ensures LoadOutcome(error, loadedCulture, activeCulture)
                == LoadSpecLegacy(cultures, dataFile, old(loadedCulture), old(activeCulture))
    {
      error := None;
      if dataFile.NoFile? {
        return;
      }
      var culture := if dataFile.OneByte? then dataFile.id else dataFile.version;
      if !IsValid(culture, |cultures|) {
        return;
      }
      loadedCulture := culture;
      var c := cultures[loadedCulture].culture;
      if c.None? {
        return Some(NullReference);
      }
      activeCulture := c.value;
    }

    /** `SaveCustomCultureData` of the current version, writing the record for every active
        culture, vanilla ones included. */
    method SaveCustomCultureData()
      modifies this`dataFile
      ensures dataFile == SaveRecord(activeCulture)
    {
      dataFile := Versioned(FileVersion, activeCulture.name);
    }

    /** `SaveCustomCultureData` of the older version. */
    method SaveCustomCultureDataLegacy()
      modifies this`dataFile
      ensures dataFile == SaveRecordLegacy(activeCulture)
    {
      dataFile := OneByte(activeCulture.legacyId % 256);
    }

    /** `RevertCustomCulture`: a custom active culture is swapped for the host's culture of
        the cached vanilla id, looked up with the host's `FromLegacyId` (both the plain and the
        soft switch go through it); the culture active before is returned. */
    method RevertCustomCulture() returns (r: Result<GameCulture, Exception>)
      modifies this`activeCulture
      ensures r.Err? <==> IsCustom(cultures, old(activeCulture).legacyId).Err?
      ensures r.Ok? ==> r.value == old(activeCulture)
      ensures r.Ok? && cultures[old(activeCulture).legacyId].mod.Some? ==>
                activeCulture == FromLegacyId(legacyCultures, cachedVanillaCulture)
      ensures r.Err? || cultures[old(activeCulture).legacyId].mod.None? ==> activeCulture == old(activeCulture)
    {
      var customCulture := activeCulture;
      var isCustom :- IsCustom(cultures, customCulture.legacyId);
      if isCustom {
        activeCulture := FromLegacyId(legacyCultures, cachedVanillaCulture);
      }
      r := Ok(customCulture);
    }

    /** The `Main.SaveSettings` hook: the record is saved, a custom active culture is swapped
        for the cached vanilla one while the host saves its own settings, and then restored.
        The host's settings therefore never name a custom culture when the cached one is a
        registered vanilla culture, and the active culture is the same afterwards. */
    method SaveSettings() returns (r: Result<(), Exception>)
      requires Valid()
      modifies this`dataFile, this`activeCulture, this`hostLanguage
      ensures dataFile == SaveRecord(old(activeCulture))
      ensures r.Err? <==> IsCustom(cultures, old(activeCulture).legacyId).Err?
      ensures r.Ok? ==> activeCulture == old(activeCulture)
      ensures r.Ok? && cultures[old(activeCulture).legacyId].mod.Some? ==>
                hostLanguage == FromLegacyId(legacyCultures, cachedVanillaCulture).legacyId >= English
      ensures r.Ok? && cultures[old(activeCulture).legacyId].mod.None? ==> hostLanguage == old(activeCulture).legacyId
      ensures r.Ok? && English <= cachedVanillaCulture < |cultures| && cachedVanillaCulture in legacyCultures
              && cultures[cachedVanillaCulture].Vanilla()
              ==> 0 <= hostLanguage < |cultures| && cultures[hostLanguage].Vanilla()
    {
      SaveCustomCultureData();
      var customCulture :- RevertCustomCulture();
      FromLegacyIdKeepsId(legacyCultures, cachedVanillaCulture);
      hostLanguage := activeCulture.legacyId;
      activeCulture := customCulture;
      r := Ok(());
    }

    /** `UnregisterCultures`: a custom active culture is swapped for the cached vanilla one,
        then every non-vanilla id is removed from both host maps. */
    method UnregisterCultures() returns (r: Result<(), Exception>)
      modifies this`activeCulture, this`legacyCultures, this`namedCultures
      ensures r.Err? <==> IsCustom(cultures, old(activeCulture).legacyId).Err?
      ensures r.Ok? ==> legacyCultures == old(legacyCultures) - CustomIds(cultures, |cultures|)
                        && namedCultures == old(namedCultures) - CustomIds(cultures, |cultures|)
      ensures r.Ok? && cultures[old(activeCulture).legacyId].mod.Some? ==>
                activeCulture == FromLegacyId(old(legacyCultures), cachedVanillaCulture)
      ensures r.Ok? && cultures[old(activeCulture).legacyId].mod.None? ==> activeCulture == old(activeCulture)
    {
      var previous :- RevertCustomCulture();
      ghost var reverted := activeCulture;
      var i := 1;
      while i < |cultures|
        invariant 1 <= i <= |cultures|
        invariant legacyCultures == old(legacyCultures) - CustomIds(cultures, i)
        invariant namedCultures == old(namedCultures) - CustomIds(cultures, i)
        invariant activeCulture == reverted
      {
        CustomIdsStep(cultures, i);
        if !cultures[i].Vanilla() {
          legacyCultures := legacyCultures - {i};
          namedCultures := namedCultures - {i};
        }
        i := i + 1;
      }
      r := Ok(());
    }
  }
}
