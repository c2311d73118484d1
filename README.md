# MoreLocales localization core, modelled in Dafny

MoreLocales is a Terraria mod. It adds eighteen cultures to the game's nine, and it lets other
mods register cultures of their own. This project models the parts of it that are plain logic
and proves what they promise. The host game's objects become values, and host lookups and
delegates become parameters or function-valued fields.

The modelled parts:

- **The culture registry.** `extraCulturesV2` is indexed by legacy id and has a running count.
  - The current `MoreLocalesAPI.RegisterCulture` and the older `ExtraLocalesSupport.RegisterCulture`
    are both modelled, with their error cases.
  - Also modelled: the 27 built-in registrations, the fallback choice, the save record and its
    loaders, the settings-save hook, reverting and unregistering.
  - Autoloaded `ModCulture` templates are registered through a type-to-id map.
- **Grammar rules.**
  - The Czech, Turkish and Romanian plural rules.
  - The legacy-id to plural-rule mapping.
  - Adjective/noun ordering.
  - The `{Prefix}` placeholder remover.
  - The `"G/P"` inflection parser and the gender/pluralization byte.
- **Localization-key helpers** of `LangUtils`:
  - scope-walking key lookup;
  - flattening of the host's nested dictionaries;
  - the `.hjson` file filter;
  - entry lookup;
  - the comment queue.
- **The language menu's integer logic**:
  - items per page and page count;
  - page stepping;
  - the visible-culture list;
  - the column/row placement;
  - button activity and the hover/click pass.

Modules, one file each:

- `Text`: Option/Result and models of the .NET string operations used: `Split` and `Join`, an
  ordinal `IndexOf`, and ASCII-only stand-ins for `ToUpper` and `uint.TryParse`.
- `Enums`, `CultureHelper` and `Cultures`: the data model.
- `Registration`: registration as steps over table values.
- `MoreLocalesApi`: the class `CultureRegistry`, the static state the source mutates in place.
- `CultureAutoloading`: `ModCulture`.
- `LangFeatures`: `LangFeaturesPlus`.
- `LangUtils`: `LangUtils`, with classes for a localization file and for the comment queue.
- `LangMenu`: `BetterLangMenuV2`, with the class `LanguageMenu` for its static fields and its
  draw-info array.

C# integer semantics are written out where they matter:

- `%` truncates toward zero (`CultureHelper.CsRem`).
- The inflection byte uses `bv8`/`bv32` with the unchecked `(byte)` cast.
- A parameterless `new()` on a struct zero-initialises it, so `AdjectiveOrder.Before` equals
  `default` and a defaulted `GrammarData` has style 0.

## Model

| member | source | states |
|---|---|---|
| Enums.CultureNameOf | Core/Enums.cs:8-29 | the enum name of a culture id: ids 1..9 name the host's cultures in order, 10..27 name `CultureNamePlus` members in declaration order |
| Enums.AdjectiveOrderType.Value | Core/Enums.cs:73-77 | the value is 0 exactly for `Before`, so `Before` is the enum's default; it is 0 or 1 |
| Enums.CultureNamePlusConsecutive | Core/Enums.cs:10-27 | implicit numbering gives the k-th added culture the value 10 + k, and its name is the k-th declared name |
| Enums.CultureNamePlusRange | Core/Enums.cs:27-28 | the last added culture is Indonesian = 27, and the sentinel `Unknown` = 9999 lies beyond every culture id |
| Enums.PluralizationStylesAreVanillaIds | Core/Enums.cs:46-72 | every non-custom plural style is a vanilla culture id; `Custom` = 10 is one past the largest vanilla id |
| CultureHelper.CzechPlural | Utilities/CultureHelper.cs:31-38 | the result is in {0,1,2}; it is 0 iff count = 1, and 1 iff 2 <= count <= 4 |
| CultureHelper.TurkishPlural | Utilities/CultureHelper.cs:39-44 | the result is in {0,1}; it is 1 iff count > 1, so zero and negatives are singular |
| CultureHelper.RomanianPlural | Utilities/CultureHelper.cs:45-52 | the result is in {0,1,2}; it is 0 iff count = 1, and 1 iff count != 1 and (count = 0 or 0 < mod100 < 20) |
| CultureHelper.RomanianMatchesCldr | Utilities/CultureHelper.cs:45-52 | given C#'s truncating remainders, the rule equals an independent CLDR "one/few/other" definition on every count >= 0, and gives "many" on negative counts |
| CultureHelper.AdjectiveOrder.Apply | Utilities/CultureHelper.cs:91-96 | the length is noun + connector + adjective; `Before` starts with the adjective and ends with the noun; `After` is the reverse |
| CultureHelper.ApplyMirror | Utilities/CultureHelper.cs:91-96 | an `After` order renders as the `Before` order with the same connector and the two words swapped |
| CultureHelper.PresetsRender | Utilities/CultureHelper.cs:79-89 | `Before` is the struct default (null connector) and renders adjective+noun; `After` renders noun+adjective; the spaced presets insert exactly one space |
| Cultures.FactoriesSetOnlyTheirFields | Core/MoreLocalesAPI.cs:45-132 | each `GrammarData` factory sets only the fields it names; the rest keep the primary constructor's defaults; the constructor's style is Simple, unlike `new()`'s 0 |
| Cultures.NewButtonDrawData | Core/MoreLocalesAPI.cs:139-158 | a given frame count is clamped to >= 1; a missing one is 28 without a sheet and 1 with one; a given frame is clamped to >= 0, a missing one is 0 |
| Cultures.MoreLocalesCulture.OwnerFunctionalName | Core/MoreLocalesAPI.cs:216 | the owner is this mod for a vanilla entry, otherwise the registering mod's name |
| Cultures.OwnerKindsPartition | Core/MoreLocalesAPI.cs:206-216 | every entry is exactly one of vanilla, native custom and other custom; only other-custom entries are owned by another mod |
| Cultures.IsCustom | Utilities/CultureHelper.cs:13 | an id outside the table throws; otherwise a culture is custom iff its entry has an owning mod |
| Cultures.MapLegacyIdToPluralizationId | Utilities/CultureHelper.cs:20-25 | ids below 10 map to themselves; other ids read the registered style and throw iff past the table |
| Cultures.CustomPluralization | Utilities/CultureHelper.cs:26-29 | the culture's own rule applied to (count, mod10, mod100); an out-of-range id or a null rule throws |
| Cultures.FallbackFor | Core/MoreLocalesAPI.cs:565-568 | nothing when the active culture's fallback is English (1); otherwise the host culture of the fallback id, throwing iff the host has none |
| Registration.Adopt | Core/MoreLocalesAPI.cs:441-454 | an existing host culture under the count is adopted unchanged; otherwise a usable code creates one; NullReference iff neither; DuplicateKey iff the new id is already named |
| Registration.AdoptKeepsValid | Core/MoreLocalesAPI.cs:441-454 | adopting or creating a host culture keeps the tables valid |
| Registration.StoreEntry | Core/MoreLocalesAPI.cs:456-462 | the entry lands at the old count; the count advances by one; a full table grows to count + 1 |
| Registration.StoreEntryKeepsOthers | Core/MoreLocalesAPI.cs:456-462 | storing keeps every other slot; a slot added by growing is a default entry |
| Registration.StoreEntryKeepsValid | Core/MoreLocalesAPI.cs:456-462 | storing the entry around the count's host culture keeps the tables valid |
| Registration.RegisterStepOutcomes | Core/MoreLocalesAPI.cs:422-462 | InvalidOperation iff not admitted (closed, or a non-native call with a null or this mod), changing nothing; NullReference and DuplicateKey exactly as `Adopt`; a failure leaves the table, count and named map alone; a success stores at the old count, keeps earlier slots, grows only a full table and advances the count by one; validity is kept |
| Registration.LegacyRegisterStepOutcomes | Core/ExtraLocalesSupport.cs:146-186 | the older version throws NullReference iff no host culture exists and the code is null (an empty code is accepted); success stores at the old count and advances the count by one, with an order equal to the struct default (an omitted one or an explicit `Before`) replaced by `BeforeWithSpace` and any other order kept; earlier slots and validity are kept |
| Registration.EmptyCodeVersions | Core/MoreLocalesAPI.cs:446 | an empty language code is refused by the current version and accepted by the older one (Core/ExtraLocalesSupport.cs:169) |
| Registration.LegacyStoredOrderAsWritten | Core/ExtraLocalesSupport.cs:160-161 | an order equal to the struct default is replaced by `BeforeWithSpace`; any other order is kept |
| Registration.LegacyStoredOrder | Core/ExtraLocalesSupport.cs:160-161 | only an omitted order becomes `BeforeWithSpace`; a given order is stored as given |
| Registration.ExplicitBeforeGetsSpaceAsWritten | Core/ExtraLocalesSupport.cs:160-161 | as written, an explicit `AdjectiveOrder.Before` is stored as `BeforeWithSpace` and renders "adjective noun" |
| Registration.ExplicitBeforeKept | Core/ExtraLocalesSupport.cs:160-161 | with omission told apart, an explicit `Before` renders "adjectivenoun" and an omitted order still gets the space |
| Registration.NativeCode | Core/MoreLocalesAPI.cs:319-415 | every native registration passes a region-qualified language code ("xx-..") |
| Registration.HostCulture | Core/MoreLocalesAPI.cs:279-415 | the host culture each built-in id ends up with carries that id |
| Registration.InitialIsBuiltZero | Core/MoreLocalesAPI.cs:229-232 | the static initial state (28 default slots, count 1, the host's nine cultures) is valid and is the state before any built-in registration |
| Registration.BuiltInStep | Core/MoreLocalesAPI.cs:279-415 | each built-in registration, open and native, returns its own id and stores its entry in that slot |
| Registration.BuiltInRun | Core/MoreLocalesAPI.cs:279-415 | any consecutive run of built-in registrations completes without an exception and reaches the tables of all up to its last id |
| Registration.ClosedRunRefused | Core/MoreLocalesAPI.cs:435-436 | with registration closed, a run throws InvalidOperation and changes nothing |
| Registration.RunKeepsValid | Core/MoreLocalesAPI.cs:279-415 | a run keeps the tables valid whether it completes or stops at an exception |
| Registration.BuiltInLoad | Core/MoreLocalesAPI.cs:269-278 | from the initial state with registration open, loading registers all 27 built-in cultures without an exception |
| Registration.ClosedLoadRefused | Core/MoreLocalesAPI.cs:269-278 | with registration closed, loading registers nothing and throws InvalidOperation |
| Registration.BuiltInTableShape | Core/MoreLocalesAPI.cs:279-415 | after loading, the count is 28, the table's initial length, so no resize happens; slot i holds the culture with enum value i under its enum name; ids 1..9 are vanilla, 10..27 native |
| Registration.BuiltInFallbacks | Core/MoreLocalesAPI.cs:319-415 | only Traditional Chinese, Ukrainian, Mexican Spanish and Portugal Portuguese fall back (to Chinese, Russian, Spanish, Portuguese); every other built-in has no fallback |
| Registration.BuiltInPluralization | Core/MoreLocalesAPI.cs:319-415 | the plural id of each built-in culture: vanilla ids map to themselves; Turkish, Czech and Romanian map to Custom; the five registered without grammar data map to 0 |
| MoreLocalesApi.FirstMatch | Core/MoreLocalesAPI.cs:638-646 | the search's only exception is NullReference, from an empty slot |
| MoreLocalesApi.FirstMatchFinds | Core/MoreLocalesAPI.cs:638-646 | the search returns the legacy id of the first slot holding the code |
| MoreLocalesApi.FirstMatchNone | Core/MoreLocalesAPI.cs:638-646 | the search returns nothing when no slot holds the code |
| MoreLocalesApi.SetLanguageTo | Core/MoreLocalesAPI.cs:649 | switching succeeds iff the loaded id indexes a filled slot, and then activates its culture; otherwise the active culture stays |
| MoreLocalesApi.SaveSpecAsWritten | Core/MoreLocalesAPI.cs:652-678 | throws iff the active id is outside the table; writes version 0 and the code only for a custom culture; otherwise keeps the file as it was |
| MoreLocalesApi.SaveRecord | Core/MoreLocalesAPI.cs:663-666 | the record is the version byte 0 followed by the active culture's language code |
| MoreLocalesApi.SaveRecordLegacy | Core/ExtraLocalesSupport.cs:356-357 | the record is one byte, the active legacy id when it fits |
| MoreLocalesApi.SaveLoadRoundTrip | Core/MoreLocalesAPI.cs:609-678 | saving while a registered culture is active and loading again, from any state, reactivates that culture and records its id |
| MoreLocalesApi.StaleRecordAsWritten | Core/MoreLocalesAPI.cs:654 | as written, after a switch to a vanilla culture the custom record survives, and the next load switches back to the custom culture |
| MoreLocalesApi.UnmatchedCodeAsWritten | Core/MoreLocalesAPI.cs:635-649 | as written, a saved code that no slot holds leaves `loadedCulture` at 9999, and the final index throws IndexOutOfRange |
| MoreLocalesApi.UnmatchedCodeIgnored | Core/MoreLocalesAPI.cs:635-649 | in the corrected loader, a saved code that no slot holds leaves the language and `loadedCulture` unchanged |
| MoreLocalesApi.LegacyRoundTrip | Core/ExtraLocalesSupport.cs:331-357 | the one-byte format round-trips every registered culture whose id fits in a byte |
| MoreLocalesApi.OneByteInCurrentLoader | Core/MoreLocalesAPI.cs:617-632 | the current loader reads an old one-byte file: a vanilla id is only recorded, and an added culture's id is loaded |
| MoreLocalesApi.CustomIds | Core/MoreLocalesAPI.cs:704-713 | the ids unregistration removes are non-vanilla slots from 1 on |
| MoreLocalesApi.CustomIdsStep | Core/MoreLocalesAPI.cs:704-713 | one more slot adds its id exactly when it is not vanilla |
| MoreLocalesApi.UnregisterUndoesBuiltIns | Core/MoreLocalesAPI.cs:700-714 | unregistering after the built-in registrations leaves the host exactly its own nine cultures |
| MoreLocalesApi.TryGetCulture | Core/MoreLocalesAPI.cs:255-264 | a null map throws; otherwise it returns true and the type's slot iff the type is registered, else false and slot 0 |
| MoreLocalesApi.CultureRegistry.constructor | Core/MoreLocalesAPI.cs:229-233 | 28 default slots, count 1, `loadedCulture` 9999, cached vanilla culture English, and no autoload map |
| MoreLocalesApi.CultureRegistry.AdoptChild | Core/MoreLocalesAPI.cs:441-454 | the host maps change as `Adopt` says; nothing else changes |
| MoreLocalesApi.CultureRegistry.Store | Core/MoreLocalesAPI.cs:456-462 | resizes the array in place when full, writes the slot and returns the old count, as `StoreEntry` |
| MoreLocalesApi.CultureRegistry.RegisterCulture | Core/MoreLocalesAPI.cs:422-462 | the new state and result are `RegisterStep` of the old state; a returned slot holds a host culture |
| MoreLocalesApi.CultureRegistry.RegisterCultureLegacy | Core/ExtraLocalesSupport.cs:146-186 | the new state and result are `LegacyRegisterStep` of the old state: no admission check, an order equal to the struct default stored as `BeforeWithSpace`, the zero draw data |
| MoreLocalesApi.CultureRegistry.RegisterBuiltIn | Core/MoreLocalesAPI.cs:279-415 | one built-in call with the arguments the source passes for that id |
| MoreLocalesApi.CultureRegistry.RegisterVanillaCultures | Core/MoreLocalesAPI.cs:279-318 | registers ids 1..9 in order, stopping at the first exception |
| MoreLocalesApi.CultureRegistry.RegisterNativeCustomCultures | Core/MoreLocalesAPI.cs:319-415 | registers ids 10..27 in order, stopping at the first exception |
| MoreLocalesApi.CultureRegistry.DoLoad | Core/MoreLocalesAPI.cs:269-278 | opens native registration, runs both built-in runs and closes it again; an exception leaves it open |
| MoreLocalesApi.CultureRegistry.LoadCustomCultureData | Core/MoreLocalesAPI.cs:609-651 | the exception, `loadedCulture` and active culture are those of the corrected loader |
| MoreLocalesApi.CultureRegistry.LoadCustomCultureDataLegacy | Core/ExtraLocalesSupport.cs:331-348 | an invalid byte is ignored; a valid one is loaded and activated |
| MoreLocalesApi.CultureRegistry.SaveCustomCultureData | Core/MoreLocalesAPI.cs:652-678 | the file holds the record of the active culture |
| MoreLocalesApi.CultureRegistry.SaveCustomCultureDataLegacy | Core/ExtraLocalesSupport.cs:349-369 | the file holds the one-byte record of the active culture |
| MoreLocalesApi.CultureRegistry.RevertCustomCulture | Core/MoreLocalesAPI.cs:686-699 | throws iff the active id is outside the table; swaps a custom culture for the host's `FromLegacyId` of the cached vanilla id (which falls back to English rather than throwing); keeps a vanilla one; returns the culture active before |
| MoreLocalesApi.CultureRegistry.SaveSettings | Core/MoreLocalesAPI.cs:528-539 | the record of the active culture is written (the corrected saver, before any throw); throws iff the active id is outside the table; the host's own settings record the id `FromLegacyId` gives for the cached vanilla id (at least 1) for a custom culture and the culture's own id otherwise, so never a custom culture when the cached one is a registered vanilla culture; the active culture is restored |
| MoreLocalesApi.CultureRegistry.UnregisterCultures | Core/MoreLocalesAPI.cs:700-714 | throws iff the active id is outside the table; reverts a custom culture to `FromLegacyId` of the cached vanilla id, then removes exactly the non-vanilla ids from both host maps |
| CultureAutoloading.BaseModCulture | Core/CultureAutoloading.cs:59-115 | a template's default hooks: the setters change nothing, the custom rule returns 0, the culler and availability return true, and nothing counts as overridden |
| CultureAutoloading.AutoloadArgs | Core/CultureAutoloading.cs:139-169 | the setters run on defaults (English, subtitle, no description, Simple, zero order, no sheet); the custom rule is passed iff the style is Custom; each optional hook is passed iff overridden |
| CultureAutoloading.BaseTemplateArgs | Core/CultureAutoloading.cs:139-169 | a template overriding nothing registers with English fallback, a subtitle, the Simple style, no hooks and 28 frames from frame 0 |
| CultureAutoloading.AutoloadStep | Core/CultureAutoloading.cs:131-174 | after the step the autoload map exists |
| CultureAutoloading.SlotLegacyId | Core/CultureAutoloading.cs:167-171 | reading the returned slot's legacy id succeeds iff the slot is in range and filled |
| CultureAutoloading.RegisterStepStores | Core/CultureAutoloading.cs:167-171 | a successful registration returns the slot it wrote, which holds a host culture |
| CultureAutoloading.AutoloadPresentUnchanged | Core/CultureAutoloading.cs:135-137 | a type already in the map changes nothing |
| CultureAutoloading.AutoloadNewType | Core/CultureAutoloading.cs:139-173 | a new type fails iff its registration fails, with the same exception and tables; on success the map gains exactly this type, under the written slot's id |
| CultureAutoloading.AutoloadIdempotent | Core/CultureAutoloading.cs:131-174 | after a successful step, registering any template of the same type again changes nothing |
| CultureAutoloading.AutoloadThenLookup | Core/CultureAutoloading.cs:131-174 | after a successful step, `TryGetCulture` for the type finds a slot holding a host culture |
| CultureAutoloading.Register | Core/CultureAutoloading.cs:131-174 | the registry's map, tables and result are those of `AutoloadStep`; no other state changes |
| CultureAutoloading.RegisterUnseen | Core/CultureAutoloading.cs:139-173 | for an unseen type: registers it and records the id, as `AutoloadStep` |
| CultureAutoloading.ToString | Core/CultureAutoloading.cs:196-199 | the language code |
| CultureAutoloading.GetHashCode | Core/CultureAutoloading.cs:192-195 | throws NullReference iff the language code is null |
| CultureAutoloading.EqualsContract | Core/CultureAutoloading.cs:186-199 | equality is reflexive, symmetric and transitive on templates and agrees with `ToString`; it is false for null and non-templates; equal templates hash equally |
| LangFeatures.RemovePrefixLiteral | Core/LangFeaturesPlus.cs:40-74 | without the placeholder the input is returned; with it, the first occurrence and at most one adjacent whitespace character are removed, so the result is shorter |
| LangFeatures.PlaceholderAtStart | Core/LangFeaturesPlus.cs:46-54 | a leading placeholder is removed with one following whitespace character, if any |
| LangFeatures.PlaceholderAtEnd | Core/LangFeaturesPlus.cs:56-64 | a trailing placeholder is removed with one preceding whitespace character, if any |
| LangFeatures.PlaceholderInMiddle | Core/LangFeaturesPlus.cs:66-74 | an inner placeholder gives before + after, dropping one space only when whitespace is on both sides |
| LangFeatures.RemoveFromSpacedTemplate | Core/LangFeaturesPlus.cs:40-74 | a name built by a spaced adjective order with the placeholder as adjective comes back as the bare noun |
| LangFeatures.Low8 | Core/LangFeaturesPlus.cs:357-358 | the `(byte)` cast keeps the low eight bits |
| LangFeatures.Deconstruct | Core/LangFeaturesPlus.cs:362-366 | both nibbles are <= 15, and recombining them gives back the byte |
| LangFeatures.PackDeconstruct | Core/LangFeaturesPlus.cs:357-366 | pack then deconstruct gives back the gender, and the pluralization modulo 16 (exactly when <= 15) |
| LangFeatures.GpNeverChanges | Core/LangFeaturesPlus.cs:232 | always false |
| LangFeatures.ChangesWhenNotDefaultIffNotDefault | Core/LangFeaturesPlus.cs:233 | through `Deconstruct`, the rule holds exactly for bytes other than Default |
| LangFeatures.GenderCode | Core/LangFeaturesPlus.cs:294-300 | 1 iff '1' or 'F', 2 iff '2' or 'N', 0 otherwise |
| LangFeatures.GenderOf | Core/LangFeaturesPlus.cs:289-301 | from the upper-cased first character: 1 iff '1' or 'F', 2 iff '2' or 'N', 0 for anything else and for an empty part |
| LangFeatures.AliasSlots | Core/LangFeaturesPlus.cs:318-333 | at least three slots; no custom aliases gives three empty slots |
| LangFeatures.MatchAlias | Core/LangFeaturesPlus.cs:335-353 | the result is 0 or a slot index; the only exception is NullReference |
| LangFeatures.MatchAliasFirstSlot | Core/LangFeaturesPlus.cs:335-353 | the search returns the first slot whose aliases (custom, else default) name the key when every earlier slot has aliases; it throws NullReference when a slot without aliases comes first; it gives 0 when no slot names the key |
| LangFeatures.PluralOf | Core/LangFeaturesPlus.cs:303-354 | a missing or empty second part ("F", "F/") gives 0; "P<uint>" gives the number; only an alias lookup can throw, and only NullReference |
| LangFeatures.PluralOfAlias | Core/LangFeaturesPlus.cs:318-353 | any other second part gets the index of the first alias slot naming its upper-cased text, throws if a slot without aliases comes first, and gives 0 if none names it |
| LangFeatures.CustomAliasExample | Core/LangFeaturesPlus.cs:318-353 | with the custom alias entry "one/few", "m/few" parses as masculine with pluralization 1 |
| LangFeatures.TryParse | Core/LangFeaturesPlus.cs:279-360 | the result equals the parser specification |
| LangFeatures.ParsePluralization | Core/LangFeaturesPlus.cs:303-354 | the result equals `PluralOf` |
| LangFeatures.ReadAliases | Core/LangFeaturesPlus.cs:318-333 | the fresh array equals `AliasSlots` |
| LangFeatures.FindAlias | Core/LangFeaturesPlus.cs:335-353 | the loop equals the `MatchAlias` search |
| LangFeatures.TryParseOutcomes | Core/LangFeaturesPlus.cs:279-360 | more than two parts fail with Default; otherwise success, with the first part's gender in the low nibble and its pluralization (modulo 16) in the high one, or NullReference from the alias search |
| LangFeatures.FormatParseRoundTrip | Core/LangFeaturesPlus.cs:279-360 | parsing "G/P<n>" gives back the packed gender and n, whatever the aliases are |
| LangFeatures.DefaultAliasTable | Core/LangFeaturesPlus.cs:338-353 | with no custom aliases, "0"/"S" give 0, "1"/"P"/"F" give 1, "2"/"M" give 2, anything else 0, and the search never throws |
| LangFeatures.MatchAliasIntended | Core/LangFeaturesPlus.cs:335-353 | the corrected search never throws and returns 0 or a slot index |
| LangFeatures.MatchAliasIntendedAgrees | Core/LangFeaturesPlus.cs:335-353 | wherever the written search returns, the corrected one returns the same slot |
| LangFeatures.TryParseIntendedAgrees | Core/LangFeaturesPlus.cs:279-360 | the corrected parser agrees with `TryParse` on every value `TryParse` does not throw on |
| LangFeatures.TrailingSlashAliasThrows | Core/LangFeaturesPlus.cs:322-348 | with the alias entry "S/P/M/", `TryParse("F/X")` throws NullReference; the corrected parser returns feminine, pluralization 0 |
| LangUtils.LongestScope | Utilities/LangUtils.cs:272-281 | the chosen prefix's candidate is present, and no longer prefix's candidate is |
| LangUtils.ScopeSearch | Utilities/LangUtils.cs:265-282 | a present key is returned as is; a null scope throws iff the key is missing; any non-null result is in the set |
| LangUtils.ScopeSearchLongestFirst | Utilities/LangUtils.cs:272-282 | the first candidate tried is the whole scope; null iff no candidate is present |
| LangUtils.FindKeyInScope | Utilities/LangUtils.cs:265-282 | equals `ScopeSearch` against the given set, or the host's keys when none is given |
| LangUtils.AddAllMeaning | Utilities/LangUtils.cs:577-585 | adding pairs in sequence succeeds iff their keys are distinct and new, and then yields the old entries plus every pair; failure is DuplicateKey |
| LangUtils.AddAllAppend | Utilities/LangUtils.cs:437-447 | adding two runs is adding the first, then the second unless it threw |
| LangUtils.EntryPairs | Utilities/LangUtils.cs:580-582 | one (key, value) pair per entry, in order |
| LangUtils.EntriesListToDictionary | Utilities/LangUtils.cs:577-585 | the dictionary is every entry added in order |
| LangUtils.EntriesListToDictionaryMeaning | Utilities/LangUtils.cs:577-585 | it succeeds iff the keys are distinct, and then maps each key to its entry's value |
| LangUtils.Prefixed | Utilities/LangUtils.cs:441-445 | each inner key is prefixed with the outer key and '.' |
| LangUtils.FlattenFromIsAddAll | Utilities/LangUtils.cs:437-447 | flattening adds every prefixed pair in order |
| LangUtils.FlattenVanillaLanguageDict | Utilities/LangUtils.cs:437-447 | the loop equals the flattening specification |
| LangUtils.FlattenMeaning | Utilities/LangUtils.cs:437-447 | it succeeds iff flattened keys are distinct, and then maps each "outer.inner" to its value and holds nothing else |
| LangUtils.FlatIndex | Utilities/LangUtils.cs:439-446 | each inner pair sits, prefixed, among the flattened pairs |
| LangUtils.FlattenCollisionThrows | Utilities/LangUtils.cs:444 | two outer keys whose joins coincide ("A"+"B.C" and "A.B"+"C") make flattening throw |
| LangUtils.LocalizationFiles | Utilities/LangUtils.cs:303-318 | the filter returns no more entries than the table |
| LangUtils.LocalizationFilesMembers | Utilities/LangUtils.cs:303-318 | it keeps exactly the table's ".hjson" entries, which must contain "en-US" when only base files are wanted |
| LangUtils.LocalizationFilesKeepOrder | Utilities/LangUtils.cs:303-318 | filtering a concatenation filters each part, so order is kept |
| LangUtils.LocalizationFilesIdempotent | Utilities/LangUtils.cs:303-318 | filtering twice is filtering once |
| LangUtils.GetLocalizationFiles | Utilities/LangUtils.cs:291-323 | a null file throws; a closed file gives null; an open one gives a fresh array holding exactly the filtered entries, with no null slots |
| LangUtils.LookupKeyAsWritten | Utilities/LangUtils.cs:599-600 | as written, a key without the prefix becomes the literal prefix + ".key" |
| LangUtils.LookupKey | Utilities/LangUtils.cs:599-600 | the completed key starts with the prefix; a key without it gets prefix + "." in front |
| LangUtils.FirstEntry | Utilities/LangUtils.cs:603-610 | the first entry with an equal key, or none when no entry has it |
| LangUtils.UnprefixedKeyMissedAsWritten | Utilities/LangUtils.cs:599-614 | as written, a file holding "prefix.key" does not find it from the unprefixed key, which the intended lookup finds |
| LangUtils.PrefixedKeysUnaffected | Utilities/LangUtils.cs:599-614 | for keys already carrying the prefix, the written and the intended lookups agree |
| LangUtils.LookupKeyPrefixOptional | Utilities/LangUtils.cs:593-614 | the intended lookup finds the same key with or without the caller's prefix |
| LangUtils.ComposeComment | Utilities/LangUtils.cs:113-133 | key, value and type are unchanged; overwriting gives "// " or "# " + comment; appending gives the old comment + comment |
| LangUtils.ComposeCommentLaws | Utilities/LangUtils.cs:113-133 | overwriting is idempotent; appending keeps the old comment as a prefix |
| LangUtils.ApplyAllKeepsEntries | Utilities/LangUtils.cs:100-133 | comment requests keep the number of entries and every key, value and type |
| LangUtils.LocalizationFile.constructor | Utilities/LangUtils.cs:506-512 | the file holds its prefix and entries |
| LangUtils.LocalizationFile.TryGetEntry | Utilities/LangUtils.cs:593-614 | the corrected lookup: the first entry whose key equals the completed key, which carries the prefix |
| LangUtils.LocalizationFile.AddComments | Utilities/LangUtils.cs:100-133 | the entries become each request applied in order, with an unfound key skipped |
| LangUtils.AddCommentOutcomes | Utilities/LangUtils.cs:165-202 | a refused request changes nothing; an accepted one queues exactly it under the mod named by the key's second piece and marks the mod checked; a key outside "Mods." is refused |
| LangUtils.CheckedModAccepted | Utilities/LangUtils.cs:183-195 | once a mod is checked, its open file's requests are accepted without the disk checks |
| LangUtils.BatchesMeaning | Utilities/LangUtils.cs:67-74 | there is a batch for exactly the mods with requests, each holding its requests in queue order |
| LangUtils.CommentQueue.constructor | Utilities/LangUtils.cs:37-40 | no checked mods, an empty queue, and the reload flag false |
| LangUtils.CommentQueue.AddComment | Utilities/LangUtils.cs:165-202 | the result, checked set and queue are those of `AddCommentStep` |
| LangUtils.CommentQueue.DrainQueue | Utilities/LangUtils.cs:62-74 | empties the queue into the per-mod batches; sets the reload flag iff the queue was non-empty |
| LangMenu.ButtonTextFor | Common/BetterLangMenuV2.cs:35-50 | a title always; a subtitle iff flagged; a description iff flagged |
| LangMenu.KeyParts | Common/BetterLangMenuV2.cs:37-47 | each key is "Mods", the owner, "Cultures", the name and the part, joined by '.'; splitting gives the five parts back |
| LangMenu.ButtonTextKeys | Common/BetterLangMenuV2.cs:37-47 | the title, subtitle and description keys are those joined keys |
| LangMenu.TitleKeysDistinct | Common/BetterLangMenuV2.cs:37-41 | cultures differing in owner or name get different title keys |
| LangMenu.ItemsPerPage | Common/BetterLangMenuV2.cs:143 | at least 1, and columns*rows when that is at least 1 |
| LangMenu.MaxPageIsCeiling | Common/BetterLangMenuV2.cs:144 | the page count is the ceiling of (length - 1) / itemsPerPage: enough pages, none spare; it is 0 iff only the dummy slot exists |
| LangMenu.PageStep | Common/BetterLangMenuV2.cs:146-165 | moves by the direction, clamped to [0, maxPage - 1]; unchanged stays unless past the end; with no pages it becomes maxPage - 1 |
| LangMenu.PageChanged | Common/BetterLangMenuV2.cs:431-449 | true iff E or Q was just pressed; direction is +1 for E alone, -1 for Q alone, 0 otherwise |
| LangMenu.VisibleIndices | Common/BetterLangMenuV2.cs:169-175 | the entries are slot indices from 1 below the length |
| LangMenu.VisibleIndicesMeaning | Common/BetterLangMenuV2.cs:169-175 | an index is listed iff it is >= 1 and its availability hook is null or true; the list is strictly ascending |
| LangMenu.CellInGrid | Common/BetterLangMenuV2.cs:194-195 | the row is below rows; the column's page block is i / itemsPerPage; its position inside the block is i % columns |
| LangMenu.CellInjective | Common/BetterLangMenuV2.cs:194-195 | distinct positions get distinct cells |
| LangMenu.VisibleButtonsReachable | Common/BetterLangMenuV2.cs:143-195 | every visible button lies on a page below the page count |
| LangMenu.ButtonActive | Common/BetterLangMenuV2.cs:427-430 | an empty slot throws NullReference; otherwise true iff the slot's legacy id is the active culture's |
| LangMenu.StepStatus | Common/BetterLangMenuV2.cs:225-227 | the draw-step status is false iff a panel hook exists and returns false |
| LangMenu.PlaceAll | Common/BetterLangMenuV2.cs:184-272 | the first pass keeps the cache length |
| LangMenu.FirstPass | Common/BetterLangMenuV2.cs:194-205 | the buttons before the first empty slot are placed; the empty slot's button, if any, has already recorded its cell when the comparison throws |
| LangMenu.FirstEmptySlot | Common/BetterLangMenuV2.cs:202-207 | the first listed index whose slot is empty, where the pass throws; earlier ones are filled |
| LangMenu.PlaceAllDistinct | Common/BetterLangMenuV2.cs:184-272 | each listed button's cache entry gets its cell, interactability and status; unlisted entries are unchanged |
| LangMenu.Activated | Common/BetterLangMenuV2.cs:380-422 | a button is clicked iff it is listed, hovered by the mouse, interactable and the click happened |
| LangMenu.ClickSelectsInactiveCulture | Common/BetterLangMenuV2.cs:205-418 | after the first pass, a click can only select a filled slot whose culture is not the active one |
| LangMenu.LanguageMenu.constructor | Common/BetterLangMenuV2.cs:83-85 | 2 columns, 5 rows, page 0, no list and no cache |
| LangMenu.LanguageMenu.FitGrid | Common/BetterLangMenuV2.cs:468-469 | columns and rows become the fitted counts, raised to at least 1 |
| LangMenu.LanguageMenu.InitArrays | Common/BetterLangMenuV2.cs:100-111 | a fresh cache as long as the table; slot 0 is default; every other slot gets its button text |
| LangMenu.LanguageMenu.StepPage | Common/BetterLangMenuV2.cs:143-165 | the page becomes `PageStep` of the page count and the key state |
| LangMenu.LanguageMenu.AppendShown | Common/BetterLangMenuV2.cs:170-175 | the loop appends `VisibleIndices` |
| LangMenu.LanguageMenu.AppendVisible | Common/BetterLangMenuV2.cs:169-175 | a null list is created, then the visible indices are appended |
| LangMenu.LanguageMenu.PlaceButtons | Common/BetterLangMenuV2.cs:184-272 | throws NullReference iff a listed slot is empty; the cache is `FirstPass`: placed up to that slot, whose cell is written before the throw |
| LangMenu.LanguageMenu.DrawTopLeft | Common/BetterLangMenuV2.cs:113-360 | steps the page, extends the list and runs the first pass, as above |
| LangMenu.LanguageMenu.ClearHover | Common/BetterLangMenuV2.cs:371-378 | listed buttons lose their hover flag; nothing else changes |
| LangMenu.LanguageMenu.HoverPass | Common/BetterLangMenuV2.cs:380-422 | listed buttons are hovered iff the mouse is on them; the clicked buttons are `Activated` |
| LangMenu.LanguageMenu.HandleInteractions | Common/BetterLangMenuV2.cs:361-425 | with no list nothing happens; outside the container every hover clears; otherwise the hover pass runs; either way the list ends empty |

## Left out

- IL patching is not modelled. This covers `SupportForNewPluralization`, the IL emission of
  `AddFallbacks`, `LocalizedPrefixPosition`, `RemovePrefixLiteralFromName`, `LocalizationTweaks`
  and `GoToBetterLangMenuInstead`. It rewrites the host's compiled code. Only the logic it splices
  in is modelled (`FallbackFor`, the plural mapping).
- File and stream I/O is abstract. The data file is a `SaveFile` value (one byte, or a version
  plus a code), not .NET's length-prefixed string encoding. `File.Exists` is a missing file.
  - `ParseVanillaLanguageFile`, `ParseLocalizationFile`, `ReadFileUTF8` and `WriteToDisk` are not
    part of this model.
  - `FindHJSONFileForKey` is not part of this model. Each file's requests are modelled per
    `LocalizationFile`, not the grouping of requests into files.
- Host lookups are parameters. This covers `Language.Exists`, the localized-text key set, the
  alias entry in `TryParse`, and `ModLoader.TryGetMod` with the folder and file checks of
  `AddComment`.
  - `Substitute`, `GetItemInflection` and `GetPrefixNameWithItemContext` are not modelled. They
    depend on the host's regex and item data.
- Rendering is not modelled: textures, colours, `currentPageVisual`, float offsets, the second
  drawing pass, sounds, `MouseText` descriptions and the selection graphic.
  - Mouse hit tests on button rectangles are a predicate parameter.
  - `LangMenu.LanguageMenu.FitGrid`: only `Math.Max(…, 1)` of `HandleUseReqest` is modelled; the
    float-based counts it clamps are its inputs.
  - `buttonWidth`/`buttonHeight`, which the texture size sets on first draw, are not modelled.
- `LangMenu.LanguageMenu.InitArrays` requires that a visible list left from an earlier frame names
  no slot past the new table. The source has no such guard; the list is normally empty then.
- `LangMenu.LanguageMenu.HandleInteractions` returns the clicked buttons instead of calling the
  host's `SetLanguage`. `ClickSelectsInactiveCulture` states which cultures those can be.
- The `ConcurrentQueue` of comment requests is a sequence. The model is single-threaded.
- `ModCulture` detects overrides by reflection; they are boolean fields here.
- `ModCulture.Register` calls the `Mod.RegisterCulture` extension, whose signature in this source
  does not match the current `RegisterCulture`. The model passes the template's values to the
  current version.
- `ILoadable` wiring and `MoreLocales.cs` lifecycle hooks are not modelled.
- `DoUnload`'s nulling of the table and the autoload map is not modelled.
- `ExampleCulture.CustomPluralizationRule` uses `Main.rand` and is not modelled.
- `MoreLocalesApi.CultureRegistry.RegisterVanillaCultures` and `RegisterNativeCustomCultures`:
  each is one loop over ids. Each iteration passes the arguments of the source's straight-line
  call for that id.
- `MoreLocalesApi.CultureRegistry.LoadCustomCultureData` models the corrected loader: an
  unmatched code is ignored, as in the second finding. `UnmatchedCodeAsWritten` states the
  written behaviour.
- `MoreLocalesApi.CultureRegistry.SaveCustomCultureData` writes the record for every active
  culture, as in the fifth finding. `SaveSpecAsWritten` states the written behaviour.
- `MoreLocalesApi.CultureRegistry.SaveSettings` does not model the title update or the host's
  own settings file beyond the language id it records. It saves through the corrected
  `SaveCustomCultureData` of the fifth finding, so it writes the record while a vanilla culture
  is active, and it writes before `IsCustom` throws for an active id outside the table. The
  source writes nothing in either case (Core/MoreLocalesAPI.cs:654-655).
- `LangFeatures.RemovePrefixLiteral` finds the placeholder by ordinal search (`Text.IndexOf`).
  The source's `string.IndexOf(string)` is culture-sensitive, so ignorable characters and a
  combining mark right after the closing brace can make it miss a placeholder the model finds.
- `Registration.NativeCode` states only the shape of the codes. The codes themselves are in its
  body and in `BuiltInTableShape`.
- `CultureAutoloading.AutoloadStep` states only that the map exists afterwards. Its meaning is in
  `AutoloadPresentUnchanged`, `AutoloadNewType` and `AutoloadIdempotent`.
- `LangMenu.PlaceAll` states only that the length is kept. What it writes is in
  `PlaceAllDistinct`.
- `Text.UpperChar` and `Text.Upper` upper-case only the ASCII letters. .NET's `ToUpper` is
  culture-sensitive and covers all of Unicode, so an alias such as "množné" is matched
  differently.
- `Text.ParseUInt` accepts only plain decimal digits. .NET's `uint.TryParse` also allows
  surrounding whitespace and a leading sign, so "P+5" and "P5 " are read as 5 there and looked
  up as aliases here.
- `Cultures.FromLegacyId` stands in for the host's `GameCulture.FromLegacyId`, which is not part
  of this model: an id below 1 becomes 1, and an unknown id gives English.
- `LangUtils.LocalizationFile.TryGetEntry` uses the corrected key completion of the first
  finding. `LookupKeyAsWritten` and `UnprefixedKeyMissedAsWritten` state the written behaviour.
- `LangUtils.LocalizationFile.AddComments` looks keys up through the corrected `TryGetEntry`, so
  an unprefixed key is found where the source skips it.
- `LangUtils.FlattenVanillaLanguageDict` takes a dictionary value, so the NullReference of a null
  dictionary is not represented.
- `MoreLocalesApi.CultureRegistry.RegisterNativeCustomCultures` passes `grammarData` and
  `buttonDrawData` to the current `RegisterCulture`. The `Mod.RegisterCulture` extension in this
  source (Utilities/CultureHelper.cs:60-72) has no such parameters and forwards to the older
  version; the two API generations are mixed, and the calls are read as the current version's.
- Deconstruct's gender and pluralization enum names (`Masculine`, `Plural`, …) are plain
  numbers.

## Findings

| source | as written | input that shows it | evidently intended | confidence | as-written member | corrected member |
|---|---|---|---|---|---|---|
| Utilities/LangUtils.cs:599-600 | `key = $"{file.prefix}.key"` has no braces around `key`, so every unprefixed key becomes the literal "<prefix>.key" | prefix "Mods.Example", entry "Mods.Example.Title", lookup "Title" finds nothing | an unprefixed key gets the prefix and '.' in front, as the doc comment says | high, not executed | LangUtils.UnprefixedKeyMissedAsWritten | LangUtils.LookupKeyPrefixOptional |
| Core/MoreLocalesAPI.cs:635-649 | a saved code that no slot holds leaves `loadedCulture` at 9999, which is then used as an index | a file saved while another mod's culture was active, loaded after that mod is removed | ignore an unknown code, as a missing file is ignored | medium, not executed | MoreLocalesApi.UnmatchedCodeAsWritten | MoreLocalesApi.UnmatchedCodeIgnored |
| Core/ExtraLocalesSupport.cs:160-161 | `adjectiveOrder == default` also matches an explicit `AdjectiveOrder.Before`, which `new()` zero-initialises | `RegisterCulture(..., adjectiveOrder: AdjectiveOrder.Before)` stores `BeforeWithSpace` | only an omitted order gets `BeforeWithSpace` | medium, not executed | Registration.ExplicitBeforeGetsSpaceAsWritten | Registration.ExplicitBeforeKept |
| Core/LangFeaturesPlus.cs:322-348 | an alias entry with more than three pieces widens the table; an empty extra slot has no default and is split while null | alias entry "S/P/M/" and value "F/X" throw NullReference | a slot with no alias is skipped, and the search falls through to 0 | high, not executed | LangFeatures.TrailingSlashAliasThrows | LangFeatures.TryParseIntendedAgrees |
| Core/MoreLocalesAPI.cs:654 | nothing is written while a vanilla culture is active, so an older custom record survives | activate British English, save, switch to English, save; the next load activates British English | the record follows the culture active at the last save | medium, not executed | MoreLocalesApi.StaleRecordAsWritten | MoreLocalesApi.SaveLoadRoundTrip |

The older registration (`Registration.LegacyRegisterStep` and
`MoreLocalesApi.CultureRegistry.RegisterCultureLegacy`) keeps the written substitution of the
third row, as the source has it. The corrected substitution is `Registration.LegacyStoredOrder`.
