/** The self-contained grammar features: removing the `{Prefix}` placeholder from item names,
    the "G/P" inflection-string parser, the gender/pluralization byte and the two built-in
    "does this context change the adjective" rules. */
module LangFeatures {
  import opened Text
  import opened CultureHelper

  /** The placeholder a translator may put in an item name to position the prefix. */
  const PrefixLiteral := "{Prefix}"

  /** `lo..hi` is the first placeholder at `i` widened by at most one whitespace character on
      one side. */
  predicate RemovedSpan(s: string, i: int, lo: int, hi: int)
  {
    0 <= lo <= i && i + |PrefixLiteral| <= hi <= |s|
    && (lo == i || (lo == i - 1 && IsWhiteSpace(s[lo])))
    && (hi == i + |PrefixLiteral| || (hi == i + |PrefixLiteral| + 1 && IsWhiteSpace(s[i + |PrefixLiteral|])))
    && (lo == i || hi == i + |PrefixLiteral|)
  }

  /** `RemovePrefixLiteral`: drops the first placeholder and one whitespace character next to
      it (the following one at the start, the preceding one at the end, one of the two in the
      middle when both sides are whitespace); a name without placeholder is returned as is. */
  function RemovePrefixLiteral(input: string): (r: string)
    ensures !Contains(input, PrefixLiteral) ==> r == input
    ensures Contains(input, PrefixLiteral) ==>
      exists lo, hi :: RemovedSpan(input, IndexOf(input, PrefixLiteral), lo, hi) && r == input[..lo] + input[hi..]
    ensures Contains(input, PrefixLiteral) ==> |r| < |input|
  {
    var index := IndexOf(input, PrefixLiteral);
    var n := |PrefixLiteral|;
    if index == -1 then input
    else if index == 0 then
      // beginning: also skip one following whitespace character
      var start := if |input| > n && IsWhiteSpace(input[n]) then n + 1 else n;
      assert RemovedSpan(input, index, 0, start) && input[start..] == input[..0] + input[start..];
      input[start..]
    else if index + n == |input| then
      // end: also drop one preceding whitespace character
      var end := if IsWhiteSpace(input[index - 1]) then index - 1 else index;
      assert RemovedSpan(input, index, end, |input|) && input[..end] == input[..end] + input[|input|..];
      input[..end]
    else
      // middle: drop one whitespace only when both neighbours are whitespace
      var before := input[..index];
      var after := input[index + n..];
      if IsWhiteSpace(before[|before| - 1]) && IsWhiteSpace(after[0]) then
        assert RemovedSpan(input, index, index, index + n + 1) && after[1..] == input[index + n + 1..];
        before + after[1..]
      else
        assert RemovedSpan(input, index, index, index + n);
        before + after
  }

  /** The placeholder's only '{' is its first character and it holds no whitespace. */
  lemma PrefixLiteralShape()
    ensures forall k :: 0 < k < |PrefixLiteral| ==> PrefixLiteral[k] != '{'
    ensures forall k :: 0 <= k < |PrefixLiteral| ==> !IsWhiteSpace(PrefixLiteral[k]) && PrefixLiteral[k] != ' '
  {
  }

  /** A placeholder-free `front` followed by the placeholder: the first occurrence is the one
      that starts right after `front`. */
  lemma {:induction false} FirstOccurrenceAfter(front: string, rest: string)
    requires !Contains(front, PrefixLiteral)
    requires StartsWith(rest, PrefixLiteral)
    ensures IndexOf(front + rest, PrefixLiteral) == |front|
  {
    var s := front + rest;
    var n := |PrefixLiteral|;
    assert s[|front|..|front| + n] == rest[..n];
    assert OccursAt(s, PrefixLiteral, |front|);
    PrefixLiteralShape();
    forall j | 0 <= j < |front| ensures !OccursAt(s, PrefixLiteral, j) {
      if j + n <= |front| {
        assert s[j..j + n] == front[j..j + n];
        assert !OccursAt(front, PrefixLiteral, j);
      } else if j + n <= |s| {
        assert s[j..j + n][|front| - j] == rest[0] == '{' != PrefixLiteral[|front| - j];
      }
    }
  }

  /** Appending a character that cannot end the placeholder keeps a string placeholder-free. */
  lemma {:induction false} NoPlaceholderAfterAppend(front: string, c: char)
    requires !Contains(front, PrefixLiteral)
    requires c != '}'
    ensures !Contains(front + [c], PrefixLiteral)
  {
    var s := front + [c];
    var n := |PrefixLiteral|;
    forall j | 0 <= j <= |s| ensures !OccursAt(s, PrefixLiteral, j) {
      if j + n <= |front| {
        assert s[j..j + n] == front[j..j + n];
        assert !OccursAt(front, PrefixLiteral, j);
      } else if j + n == |s| {
        assert s[j..j + n][n - 1] == c != PrefixLiteral[n - 1];
      }
    }
  }

  /** A name that starts with the placeholder loses it and one following whitespace
      character, if there is one. */
  lemma PlaceholderAtStart(rest: string)
    ensures RemovePrefixLiteral(PrefixLiteral + rest)
         == if |rest| > 0 && IsWhiteSpace(rest[0]) then rest[1..] else rest
  {
    var s := PrefixLiteral + rest;
    FirstOccurrenceAfter("", s);
    assert "" + s == s;
    assert s[|PrefixLiteral|..] == rest;
  }

  /** A name that ends with its only placeholder loses it and one preceding whitespace
      character, if there is one. */
  lemma PlaceholderAtEnd(front: string)
    requires !Contains(front, PrefixLiteral)
    ensures RemovePrefixLiteral(front + PrefixLiteral)
         == if |front| > 0 && IsWhiteSpace(front[|front| - 1]) then front[..|front| - 1] else front
  {
    var s := front + PrefixLiteral;
    FirstOccurrenceAfter(front, PrefixLiteral);
    assert s[..|front|] == front;
    if |front| > 0 {
      assert s[..|front| - 1] == front[..|front| - 1];
    }
  }

  /** A name with its first placeholder strictly inside loses the placeholder, plus one
      whitespace character when whitespace sits on both sides of it. */
  lemma PlaceholderInMiddle(front: string, back: string)
    requires !Contains(front, PrefixLiteral)
    requires |front| > 0 && |back| > 0
    ensures RemovePrefixLiteral(front + PrefixLiteral + back)
         == if IsWhiteSpace(front[|front| - 1]) && IsWhiteSpace(back[0]) then front + back[1..] else front + back
  {
    var s := front + PrefixLiteral + back;
    assert s == front + (PrefixLiteral + back);
    FirstOccurrenceAfter(front, PrefixLiteral + back);
    assert s[..|front|] == front;
    assert s[|front| + |PrefixLiteral|..] == back;
  }

  /** A name template built with a spaced adjective order and the placeholder as the
      adjective comes back as the bare noun: the placeholder and its space both go. */
  lemma RemoveFromSpacedTemplate(noun: string)
    requires !Contains(noun, PrefixLiteral)
    ensures RemovePrefixLiteral(OrderBeforeWithSpace.Apply(noun, PrefixLiteral)) == noun
    ensures RemovePrefixLiteral(OrderAfterWithSpace.Apply(noun, PrefixLiteral)) == noun
  {
    assert OrderBeforeWithSpace.Apply(noun, PrefixLiteral) == PrefixLiteral + (" " + noun);
    PlaceholderAtStart(" " + noun);
    assert (" " + noun)[1..] == noun;
    var front := noun + " ";
    assert OrderAfterWithSpace.Apply(noun, PrefixLiteral) == front + PrefixLiteral;
    NoPlaceholderAfterAppend(noun, ' ');
    PlaceholderAtEnd(front);
    assert front[..|front| - 1] == noun;
  }

  // ---- Inflection data: gender in the low nibble, pluralization in the high nibble ----

  // GrammaticalGender: Masculine = Common = 0, Feminine = 1, Neuter = 2.
  const Masculine: bv8 := 0
  const Feminine: bv8 := 1
  const Neuter: bv8 := 2
  // Pluralization: Singular = 0, Plural = Few = 1, Many = 2.
  const Singular: bv8 := 0
  const Plural: bv8 := 1
  const Many: bv8 := 2
  /** InflectionData.Default. */
  const DefaultInflection: bv8 := 0

  /** The `(byte)` cast of a `uint` (unchecked): keeps the low eight bits. */
  function Low8(x: bv32): (b: bv8)
    ensures b as bv32 == x & 0xFF
  {
    (x & 0xFF) as bv8
  }

  /** `(uint)i` for a non-negative `int`: wraps modulo 2^32. */
  function UInt32(i: nat): bv32
  {
    (i % 0x1_0000_0000) as bv32
  }

  /** The packing at the end of `TryParse`: `result |= (InflectionData)gender` and
      `result |= (InflectionData)(pluralization << 4)`, starting from Default. */
  function Pack(gender: bv32, pluralization: bv32): bv8
  {
    DefaultInflection | Low8(gender) | Low8(pluralization << 4)
  }

  /** `Deconstruct`: the gender is the low nibble, the pluralization the high nibble. */
  function Deconstruct(data: bv8): (r: (bv8, bv8))
    ensures r.0 <= 15 && r.1 <= 15
    ensures (r.0 | (r.1 << 4)) == data
  {
    (data & 0xF, data >> 4)
  }

  /** Packing then deconstructing gives back the gender when it fits in a nibble, and the
      pluralization modulo 16 (the shifted value is truncated to a byte). */
  lemma PackDeconstruct(gender: bv32, pluralization: bv32)
    requires gender <= 15
    ensures Deconstruct(Pack(gender, pluralization)) == (gender as bv8, (pluralization & 0xF) as bv8)
    ensures pluralization <= 15 ==> Deconstruct(Pack(gender, pluralization)) == (gender as bv8, pluralization as bv8)
  {
  }

  /** `gpNeverChanges`: the adjective never depends on the noun. */
  function GpNeverChanges(gender: bv8, pluralization: bv8): (changes: bool)
    ensures !changes
  {
    false
  }

  /** `gpChangesWhenNotDefault`: the adjective changes unless the noun is masculine singular. */
  predicate GpChangesWhenNotDefault(gender: bv8, pluralization: bv8)
  {
    gender > 0 || pluralization > 0
  }

  /** Read through `Deconstruct`, `gpChangesWhenNotDefault` holds exactly for the inflection
      bytes other than Default. */
  lemma ChangesWhenNotDefaultIffNotDefault(data: bv8)
    ensures GpChangesWhenNotDefault(Deconstruct(data).0, Deconstruct(data).1) <==> data != DefaultInflection
  {
  }

  // ---- The "G/P" parser ----

  /** The outcome of `TryParse`: its return value and its `out` result. */
  datatype ParseResult = ParseResult(success: bool, data: bv8)

  /** The gender switch on the upper-cased first character. */
  function GenderCode(c: char): (g: bv32)
    ensures g <= 2
    ensures g == 1 <==> c == '1' || c == 'F'
    ensures g == 2 <==> c == '2' || c == 'N'
  {
    if c == '0' || c == 'M' || c == 'C' then 0
    else if c == '1' || c == 'F' then 1
    else if c == '2' || c == 'N' then 2
    else 0
  }

  /** The gender of the first part, read from its upper-cased first character: 1 for '1' or
      'F', 2 for '2' or 'N', and 0 for anything else or an empty part. */
  function GenderOf(part: string): (g: bv32)
    ensures g <= 2
    ensures |part| == 0 ==> g == 0
    ensures g == 1 <==> |part| > 0 && (UpperChar(part[0]) == '1' || UpperChar(part[0]) == 'F')
    ensures g == 2 <==> |part| > 0 && (UpperChar(part[0]) == '2' || UpperChar(part[0]) == 'N')
  {
    if |part| == 0 then 0 else GenderCode(UpperChar(part[0]))
  }

  /** The built-in aliases of the first three pluralization slots; any later slot has none. */
  function DefaultAlias(i: nat): Option<string>
  {
    if i < |DefaultAliases| then Some(DefaultAliases[i]) else None
  }

  /** The `switch` arms of the first three slots. */
  const DefaultAliases: seq<string> := ["0/S", "1/P/F", "2/M"]

  /** The alias slots after the custom alias entry is read: at least three slots, slot `i`
      holding the `i`-th upper-cased custom alias when that alias is non-empty, null otherwise. */
  function AliasSlots(entry: string): (slots: seq<Option<string>>)
    ensures |slots| >= 3
    ensures entry == "" ==> slots == [None, None, None]
  {
    if entry == "" then [None, None, None]
    else
      var aliases := Split(Upper(entry), '/');
      var n := if |aliases| > 3 then |aliases| else 3;
      seq(n, i requires 0 <= i < n => if i < |aliases| && aliases[i] != "" then Some(aliases[i]) else None)
  }

  /** The search over the slots from `i` on: an empty slot takes its default, a slot whose
      '/'-separated aliases contain `key` gives its index, and running off the end gives 0.
      A slot past the third with neither a custom nor a default alias is dereferenced while
      null. */
  function MatchAlias(slots: seq<Option<string>>, key: string, i: nat): (r: Result<nat, Exception>)
    requires i <= |slots|
    ensures r.Ok? ==> r.value == 0 || (i <= r.value < |slots|)
    ensures r.Err? ==> r.error == NullReference
    decreases |slots| - i
  {
    if i == |slots| then Ok(0)
    else
      var text := SlotText(slots, i);
      if text.None? then Err(NullReference)
      else if key in Split(text.value, '/') then Ok(i)
      else MatchAlias(slots, key, i + 1)
  }

  /** The aliases slot `i` is searched with: its custom aliases, or else its default. */
  function SlotText(slots: seq<Option<string>>, i: nat): Option<string>
    requires i < |slots|
  {
    if slots[i].Some? then slots[i] else DefaultAlias(i)
  }

  /** Slot `i` has aliases and `key` is one of them. */
  predicate Names(slots: seq<Option<string>>, key: string, i: nat)
    requires i < |slots|
  {
    SlotText(slots, i).Some? && key in Split(SlotText(slots, i).value, '/')
  }

  /** Slot `i` has aliases and `key` is none of them, so the search moves on. */
  predicate PassesOver(slots: seq<Option<string>>, key: string, i: nat)
    requires i < |slots|
  {
    SlotText(slots, i).Some? && key !in Split(SlotText(slots, i).value, '/')
  }

  /** The search from `i` returns the first slot that names `key`, provided every slot before
      it has aliases; it throws NullReference when it reaches a slot without aliases first;
      and it gives 0 when it passes over every slot. */
  lemma {:induction false} MatchAliasFirstSlot(slots: seq<Option<string>>, key: string, i: nat)
    requires i <= |slots|
    ensures forall j | i <= j < |slots| && Names(slots, key, j)
                       && (forall m | i <= m < j :: PassesOver(slots, key, m)) ::
              MatchAlias(slots, key, i) == Ok(j)
    ensures forall j | i <= j < |slots| && SlotText(slots, j).None?
                       && (forall m | i <= m < j :: PassesOver(slots, key, m)) ::
              MatchAlias(slots, key, i) == Err(NullReference)
    ensures (forall m | i <= m < |slots| :: PassesOver(slots, key, m)) ==> MatchAlias(slots, key, i) == Ok(0)
    decreases |slots| - i
  {
    if i < |slots| {
      MatchAliasFirstSlot(slots, key, i + 1);
      if PassesOver(slots, key, i) {
        assert MatchAlias(slots, key, i) == MatchAlias(slots, key, i + 1);
      }
    }
  }

  /** The pluralization of a one- or two-part value: "P<number>" gives the number, any other
      non-empty second part is looked up among the aliases, and no second part gives 0. */
  function PluralOf(values: seq<string>, entry: string): (r: Result<bv32, Exception>)
    requires 1 <= |values| <= 2
    ensures r.Err? ==> r.error == NullReference && |values| == 2 && values[1] != "" && !CountLiteral(values[1])
    ensures |values| == 1 || values[1] == "" ==> r == Ok(0)
    ensures |values| == 2 && CountLiteral(values[1]) ==> r == Ok(ParseUInt(values[1][1..]).value as bv32)
  {
    if |values| == 2 && values[1] != "" then
      var part := values[1];
      if CountLiteral(part) then
        Ok(ParseUInt(part[1..]).value as bv32)
      else
        var i :- MatchAlias(AliasSlots(entry), Upper(part), 0);
        Ok(UInt32(i))
    else Ok(0)
  }

  /** "P" (either case) followed by a number `uint.TryParse` accepts. */
  predicate CountLiteral(part: string)
  {
    |part| > 1 && UpperChar(part[0]) == 'P' && ParseUInt(part[1..]).Some?
  }

  /** A second part that is not a "P<number>" literal takes the index of the first alias
      slot naming its upper-cased text, provided every slot before it has aliases; it throws
      if a slot without aliases comes first, and gives 0 if no slot names it. */
  lemma PluralOfAlias(values: seq<string>, entry: string)
    requires |values| == 2 && values[1] != "" && !CountLiteral(values[1])
    ensures var slots, key := AliasSlots(entry), Upper(values[1]);
            (forall j | 0 <= j < |slots| && Names(slots, key, j)
                        && (forall m | 0 <= m < j :: PassesOver(slots, key, m)) ::
               PluralOf(values, entry) == Ok(UInt32(j)))
            && (forall j | 0 <= j < |slots| && SlotText(slots, j).None?
                           && (forall m | 0 <= m < j :: PassesOver(slots, key, m)) ::
                  PluralOf(values, entry) == Err(NullReference))
            && ((forall m | 0 <= m < |slots| :: PassesOver(slots, key, m)) ==> PluralOf(values, entry) == Ok(0))
  {
    MatchAliasFirstSlot(AliasSlots(entry), Upper(values[1]), 0);
  }

  /** What `TryParse(value)` does with the alias entry `entry`: more than two parts fail with
      Default; otherwise it succeeds with the packed gender and pluralization, unless the
      alias search dereferences a null slot. */
  function TryParseSpec(value: string, entry: string): Result<ParseResult, Exception>
  {
    var values := Split(value, '/');
    if |values| > 2 then Ok(ParseResult(false, DefaultInflection))
    else
      var p :- PluralOf(values, entry);
      Ok(ParseResult(true, Pack(GenderOf(values[0]), p)))
  }

  /** `TryParse`, with the custom alias localization entry passed in as `entry`. */
  method TryParse(value: string, entry: string) returns (outcome: Result<ParseResult, Exception>)
    ensures outcome == TryParseSpec(value, entry)
  {
    var result := DefaultInflection;
    var values := Split(value, '/');
    if |values| > 2 {   // Split never yields zero parts
      return Ok(ParseResult(false, result));
    }
    var finalGender: bv32 := 0;
    if values[0] != "" {
      var gender := UpperChar(values[0][0]);
      finalGender := GenderCode(gender);
    }
    var finalPluralization :- ParsePluralization(values, entry);
    result := result | Low8(finalGender);
    result := result | Low8(finalPluralization << 4);
    return Ok(ParseResult(true, result));
  }

  /** The pluralization half of `TryParse`. */
  method ParsePluralization(values: seq<string>, entry: string) returns (r: Result<bv32, Exception>)
    requires 1 <= |values| <= 2
    ensures r == PluralOf(values, entry)
  {
    var finalPluralization: bv32 := 0;
    if |values| == 2 && values[1] != "" {
      var plural := UpperChar(values[1][0]);
      if |values[1]| > 1 && plural == 'P' && ParseUInt(values[1][1..]).Some? {
        finalPluralization := ParseUInt(values[1][1..]).value as bv32;
      } else {
        var aliasesCollection := ReadAliases(entry);
        var key := Upper(values[1]);
        finalPluralization :- FindAlias(aliasesCollection, key);
      }
    }
    return Ok(finalPluralization);
  }

  /** The alias table: three null slots, widened to the number of custom aliases, with every
      non-empty custom alias appended into its (null) slot. */
  method ReadAliases(entry: string) returns (aliasesCollection: array<Option<string>>)
    ensures fresh(aliasesCollection) && aliasesCollection[..] == AliasSlots(entry)
  {
    aliasesCollection := new Option<string>[3](_ => None);
    if entry != "" {
      var aliases := Split(Upper(entry), '/');
      if |aliases| > aliasesCollection.Length {
        aliasesCollection := Resize(aliasesCollection, |aliases|, None);
      }
      for i := 0 to |aliases|
        invariant aliasesCollection.Length >= |aliases| && aliasesCollection.Length >= 3
        invariant forall k :: 0 <= k < aliasesCollection.Length ==>
          aliasesCollection[k] == if k < i && aliases[k] != "" then Some(aliases[k]) else None
      {
        var alias := aliases[i];
        if alias != "" {
          aliasesCollection[i] := Some(Concat(aliasesCollection[i], alias));
        }
      }
    }
  }

  /** The search loop: fills each empty slot with its default before splitting it, and stops
      at the first slot whose aliases contain `key`. */
  method FindAlias(aliasesCollection: array<Option<string>>, key: string) returns (r: Result<bv32, Exception>)
    modifies aliasesCollection
    ensures r == (var i :- MatchAlias(old(aliasesCollection[..]), key, 0); Ok(UInt32(i)))
  {
    ghost var slots := aliasesCollection[..];
    var i := 0;
    while i < aliasesCollection.Length
      invariant 0 <= i <= aliasesCollection.Length == |slots|
      invariant forall k :: i <= k < |slots| ==> aliasesCollection[k] == slots[k]
      invariant MatchAlias(slots, key, i) == MatchAlias(slots, key, 0)
    {
      if aliasesCollection[i].None? {
        aliasesCollection[i] := DefaultAlias(i);
      }
      if aliasesCollection[i].None? {
        return Err(NullReference);
      }
      if key in Split(aliasesCollection[i].value, '/') {
        return Ok(UInt32(i));
      }
      i := i + 1;
    }
    return Ok(0);
  }

  /** `TryParse` reports failure (with Default) exactly when the value has more than two
      '/'-separated parts; otherwise it either succeeds with the gender of the first part in
      the low nibble and its pluralization in the high one, or throws NullReference from the
      alias search. */
  lemma TryParseOutcomes(value: string, entry: string)
    ensures TryParseSpec(value, entry) == Ok(ParseResult(false, DefaultInflection))
            <==> |Split(value, '/')| > 2
    ensures |Split(value, '/')| <= 2 && TryParseSpec(value, entry).Ok? ==>
              TryParseSpec(value, entry).value.success
              && Deconstruct(TryParseSpec(value, entry).value.data).0 == GenderOf(Split(value, '/')[0]) as bv8
    ensures |Split(value, '/')| <= 2 && TryParseSpec(value, entry).Ok? ==>
              PluralOf(Split(value, '/'), entry).Ok?
              && Deconstruct(TryParseSpec(value, entry).value.data).1
                   == (PluralOf(Split(value, '/'), entry).value & 0xF) as bv8
    ensures TryParseSpec(value, entry).Err? ==>
              TryParseSpec(value, entry).error == NullReference && |Split(value, '/')| == 2
  {
    var values := Split(value, '/');
    if |values| <= 2 {
      var p := PluralOf(values, entry);
      if p.Ok? {
        var g := GenderOf(values[0]);
        assert TryParseSpec(value, entry) == Ok(ParseResult(true, Pack(g, p.value)));
        PackDeconstruct(g, p.value);
      } else {
        assert TryParseSpec(value, entry) == Err(p.error);
      }
    }
  }

  function GenderLetter(gender: bv32): (c: char)
    requires gender <= 2
    ensures GenderCode(UpperChar(c)) == gender
  {
    if gender == 0 then 'M' else if gender == 1 then 'F' else 'N'
  }

  /** The canonical text of an inflection: gender letter, '/', 'P' and the pluralization. */
  function FormatInflection(gender: bv32, pluralization: nat): string
    requires gender <= 2
  {
    [GenderLetter(gender)] + "/P" + ShowNat(pluralization)
  }

  lemma FormatSplits(gender: bv32, pluralization: nat)
    requires gender <= 2
    ensures Split(FormatInflection(gender, pluralization), '/')
         == [[GenderLetter(gender)], "P" + ShowNat(pluralization)]
  {
    var part := "P" + ShowNat(pluralization);
    assert FormatInflection(gender, pluralization) == Join([[GenderLetter(gender)], part], '/');
    assert '/' !in part;
    SplitJoin([[GenderLetter(gender)], part], '/');
  }

  /** Parsing the canonical text gives back the packed gender and pluralization whatever the
      aliases are (and `PackDeconstruct` recovers both when the pluralization fits in a
      nibble). */
  lemma FormatParseRoundTrip(gender: bv32, pluralization: nat, entry: string)
    requires gender <= 2 && pluralization <= 0xFFFF_FFFF
    ensures TryParseSpec(FormatInflection(gender, pluralization), entry)
         == Ok(ParseResult(true, Pack(gender, pluralization as bv32)))
  {
    FormatSplits(gender, pluralization);
    var values := [[GenderLetter(gender)], "P" + ShowNat(pluralization)];
    assert GenderOf(values[0]) == gender;
    CanonicalPlural(values, pluralization, entry);
  }

  /** The second part of the canonical text is read as a number, not looked up. */
  lemma CanonicalPlural(values: seq<string>, pluralization: nat, entry: string)
    requires pluralization <= 0xFFFF_FFFF
    requires |values| == 2 && values[1] == "P" + ShowNat(pluralization)
    ensures PluralOf(values, entry) == Ok(pluralization as bv32)
  {
    var digits := ShowNat(pluralization);
    assert values[1][1..] == digits;
    DigitsValueShowNat(pluralization);
  }

  /** Which slot a key names when there are no custom aliases. */
  function DefaultAliasIndex(key: string): nat
  {
    if key == "0" || key == "S" then 0
    else if key == "1" || key == "P" || key == "F" then 1
    else if key == "2" || key == "M" then 2
    else 0
  }

  /** With no custom aliases every key is found among the three default slots ("0/S",
      "1/P/F", "2/M") or falls through to 0; the search never throws. */
  lemma DefaultAliasTable(key: string)
    ensures MatchAlias(AliasSlots(""), key, 0) == Ok(DefaultAliasIndex(key))
  {
    assert AliasSlots("") == [None, None, None];
    MatchThreeEmptySlots(key);
  }

  lemma MatchThreeEmptySlots(key: string)
    ensures MatchAlias([None, None, None], key, 0) == Ok(DefaultAliasIndex(key))
  {
    MatchEmptySlot0(key);
    MatchEmptySlot1(key);
    MatchEmptySlot2(key);
    DefaultAliasIndexByPieces(key);
  }

  lemma MatchEmptySlot0(key: string)
    ensures MatchAlias([None, None, None], key, 0)
              == if key in ["0", "S"] then Ok(0) else MatchAlias([None, None, None], key, 1)
  {
    DefaultAliasSplits0();
    MatchDefaultSlot([None, None, None], key, 0, ["0", "S"]);
  }

  lemma MatchEmptySlot1(key: string)
    ensures MatchAlias([None, None, None], key, 1)
              == if key in ["1", "P", "F"] then Ok(1) else MatchAlias([None, None, None], key, 2)
  {
    DefaultAliasSplits1();
    MatchDefaultSlot([None, None, None], key, 1, ["1", "P", "F"]);
  }

  lemma MatchEmptySlot2(key: string)
    ensures MatchAlias([None, None, None], key, 2) == if key in ["2", "M"] then Ok(2) else Ok(0)
  {
    DefaultAliasSplits2();
    MatchDefaultSlot([None, None, None], key, 2, ["2", "M"]);
    assert MatchAlias([None, None, None], key, 3) == Ok(0);
  }

  lemma DefaultAliasIndexByPieces(key: string)
    ensures DefaultAliasIndex(key)
              == if key in ["0", "S"] then 0 else if key in ["1", "P", "F"] then 1 else if key in ["2", "M"] then 2 else 0
  {
  }

  /** One step of the search over an empty slot whose default splits into `pieces`. */
  lemma MatchDefaultSlot(slots: seq<Option<string>>, key: string, i: nat, pieces: seq<string>)
    requires i < |slots| && slots[i].None? && DefaultAlias(i).Some?
    requires Split(DefaultAlias(i).value, '/') == pieces
    ensures MatchAlias(slots, key, i) == if key in pieces then Ok(i) else MatchAlias(slots, key, i + 1)
  {
  }

  lemma DefaultAliasSplits0()
    ensures Split(DefaultAlias(0).value, '/') == ["0", "S"]
  {
    assert Join(["0", "S"], '/') == "0/S";
    SplitJoin(["0", "S"], '/');
  }

  lemma DefaultAliasSplits1()
    ensures Split(DefaultAlias(1).value, '/') == ["1", "P", "F"]
  {
    assert Join(["1", "P", "F"], '/') == "1/P/F";
    SplitJoin(["1", "P", "F"], '/');
  }

  lemma DefaultAliasSplits2()
    ensures Split(DefaultAlias(2).value, '/') == ["2", "M"]
  {
    assert Join(["2", "M"], '/') == "2/M";
    SplitJoin(["2", "M"], '/');
  }

  /** A custom alias entry "one/few" fills the first two slots, so "m/few" reads the
      second part as slot 1: masculine, pluralization 1. */
  lemma CustomAliasExample()
    ensures TryParseSpec("m/few", "one/few") == Ok(ParseResult(true, Pack(0, 1)))
  {
    SplitPair("m/few", "m", "few");
    CustomAliasPlural(["m", "few"], "one/few");
    UInt32One();
    TwoPartParse("m/few", "one/few", 1);
    assert GenderOf("m") == 0;
  }

  lemma CustomAliasPlural(values: seq<string>, entry: string)
    requires values == ["m", "few"] && entry == "one/few"
    ensures PluralOf(values, entry) == Ok(UInt32(1))
  {
    FewIsNoCount();
    FewInSecondSlot(entry, "FEW");
    AliasPlural(values, entry, "FEW", 1);
  }

  lemma UInt32One()
    ensures UInt32(1) == 1
  {
  }

  lemma FewIsNoCount()
    ensures Upper("few") == "FEW" && !CountLiteral("few")
  {
    assert UpperChar('f') == 'F';
  }

  /** A second part that is no count literal takes the slot the alias search returns. */
  lemma AliasPlural(values: seq<string>, entry: string, key: string, i: nat)
    requires |values| == 2 && values[1] != "" && !CountLiteral(values[1]) && Upper(values[1]) == key
    requires MatchAlias(AliasSlots(entry), key, 0) == Ok(i)
    ensures PluralOf(values, entry) == Ok(UInt32(i))
  {
  }

  /** A value of at most two parts parses to the packed gender of its first part and its
      pluralization. */
  lemma TwoPartParse(value: string, entry: string, p: bv32)
    requires |Split(value, '/')| <= 2 && PluralOf(Split(value, '/'), entry) == Ok(p)
    ensures TryParseSpec(value, entry) == Ok(ParseResult(true, Pack(GenderOf(Split(value, '/')[0]), p)))
  {
  }

  /** A value made of two '/'-free pieces joined by '/' splits back into them. */
  lemma SplitPair(value: string, a: string, b: string)
    requires value == a + "/" + b && '/' !in a && '/' !in b
    ensures Split(value, '/') == [a, b]
  {
    assert Join([a, b], '/') == value;
    SplitJoin([a, b], '/');
  }

  lemma FewInSecondSlot(entry: string, key: string)
    requires entry == "one/few" && key == "FEW"
    ensures MatchAlias(AliasSlots(entry), key, 0) == Ok(1)
  {
    OneFewSlots();
    var slots := [Some("ONE"), Some("FEW"), None];
    SplitJoin(["ONE"], '/');
    SplitJoin(["FEW"], '/');
    assert PassesOver(slots, "FEW", 0) && Names(slots, "FEW", 1);
    MatchAliasFirstSlot(slots, "FEW", 0);
  }

  lemma OneFewSlots()
    ensures AliasSlots("one/few") == [Some("ONE"), Some("FEW"), None]
  {
    assert Upper("one/few") == "ONE/FEW";
    assert Join(["ONE", "FEW"], '/') == "ONE/FEW";
    SplitJoin(["ONE", "FEW"], '/');
    var slots := AliasSlots("one/few");
    assert |slots| == 3;
    assert slots[0] == Some("ONE") && slots[1] == Some("FEW") && slots[2] == None;
  }

  // ---- An empty alias slot past the third one ----

  /** The alias search as evidently intended: a slot with neither a custom nor a default
      alias holds nothing to match and is passed over instead of being dereferenced. */
  function MatchAliasIntended(slots: seq<Option<string>>, key: string, i: nat): (r: nat)
    requires i <= |slots|
    ensures r == 0 || i <= r < |slots|
    decreases |slots| - i
  {
    if i == |slots| then 0
    else
      var text := SlotText(slots, i);
      if text.Some? && key in Split(text.value, '/') then i
      else MatchAliasIntended(slots, key, i + 1)
  }

  /** `TryParse` with the intended alias search: it never throws. */
  function TryParseIntended(value: string, entry: string): ParseResult
  {
    var values := Split(value, '/');
    if |values| > 2 then ParseResult(false, DefaultInflection)
    else
      var p: bv32 :=
        if |values| == 2 && values[1] != "" then
          var part := values[1];
          if CountLiteral(part) then ParseUInt(part[1..]).value as bv32
          else UInt32(MatchAliasIntended(AliasSlots(entry), Upper(part), 0))
        else 0;
      ParseResult(true, Pack(GenderOf(values[0]), p))
  }

  /** Wherever the search as written returns, the intended one returns the same slot. */
  lemma {:induction false} MatchAliasIntendedAgrees(slots: seq<Option<string>>, key: string, i: nat)
    requires i <= |slots|
    ensures MatchAlias(slots, key, i).Ok? ==> MatchAlias(slots, key, i).value == MatchAliasIntended(slots, key, i)
    decreases |slots| - i
  {
    if i < |slots| {
      var text := if slots[i].Some? then slots[i] else DefaultAlias(i);
      if text.None? {
        assert MatchAlias(slots, key, i) == Err(NullReference);
      } else if key in Split(text.value, '/') {
        assert MatchAlias(slots, key, i) == Ok(i) && MatchAliasIntended(slots, key, i) == i;
      } else {
        MatchAliasIntendedAgrees(slots, key, i + 1);
        assert MatchAlias(slots, key, i) == MatchAlias(slots, key, i + 1);
        assert MatchAliasIntended(slots, key, i) == MatchAliasIntended(slots, key, i + 1);
      }
    }
  }

  /** The intended parser agrees with `TryParse` on every value `TryParse` does not throw on. */
  lemma TryParseIntendedAgrees(value: string, entry: string)
    ensures TryParseSpec(value, entry).Ok? ==> TryParseSpec(value, entry).value == TryParseIntended(value, entry)
  {
    var values := Split(value, '/');
    if |values| == 2 && values[1] != "" {
      MatchAliasIntendedAgrees(AliasSlots(entry), Upper(values[1]), 0);
    }
  }

  /** A custom alias entry with a trailing '/' ("S/P/M/") leaves a fourth, empty slot; a
      second part that matches none of the first three ("X") reaches it and `TryParse`
      throws, where the intended search falls through to pluralization 0. */
  lemma TrailingSlashAliasThrows()
    ensures TryParseSpec("F/X", "S/P/M/") == Err(NullReference)
    ensures TryParseIntended("F/X", "S/P/M/") == ParseResult(true, Pack(1, 0))
  {
    SplitPair("F/X", "F", "X");
    UnmatchedAliasSearches();
    assert GenderOf("F") == 1;
  }

  lemma UnmatchedAliasSearches()
    ensures PluralOf(["F", "X"], "S/P/M/") == Err(NullReference)
    ensures MatchAliasIntended(AliasSlots("S/P/M/"), Upper("X"), 0) == 0
  {
    assert Upper("X") == "X";
    FourSlots();
    FourthSlotReached();
  }


  lemma FourSlots()
    ensures AliasSlots("S/P/M/") == [Some("S"), Some("P"), Some("M"), None]
  {
    TrailingSlashPieces();
    FourPieceSlots("S/P/M/", "S", "P", "M");
  }

  /** An entry of three non-empty aliases and a trailing '/' gives four slots, the last
      empty. */
  lemma FourPieceSlots(entry: string, a: string, b: string, c: string)
    requires entry != "" && Split(Upper(entry), '/') == [a, b, c, ""]
    requires a != "" && b != "" && c != ""
    ensures AliasSlots(entry) == [Some(a), Some(b), Some(c), None]
  {
    var slots := AliasSlots(entry);
    assert |slots| == 4;
    assert slots[0] == Some(a) && slots[1] == Some(b) && slots[2] == Some(c) && slots[3] == None;
  }

  lemma TrailingSlashPieces()
    ensures Split(Upper("S/P/M/"), '/') == ["S", "P", "M", ""]
  {
    UpperOfUpper();
    assert Join(["S", "P", "M", ""], '/') == "S/P/M/";
    SplitJoin(["S", "P", "M", ""], '/');
  }

  lemma UpperOfUpper()
    ensures Upper("S/P/M/") == "S/P/M/"
  {
  }

  lemma FourthSlotReached()
    ensures MatchAlias([Some("S"), Some("P"), Some("M"), None], "X", 0) == Err(NullReference)
    ensures MatchAliasIntended([Some("S"), Some("P"), Some("M"), None], "X", 0) == 0
  {
    SingleAliasSplits();
  }

  lemma SingleAliasSplits()
    ensures Split("S", '/') == ["S"] && Split("P", '/') == ["P"] && Split("M", '/') == ["M"]
  {
    SplitJoin(["S"], '/');
    SplitJoin(["P"], '/');
    SplitJoin(["M"], '/');
  }
}
