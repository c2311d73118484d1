/** Helpers over a mod's localization data: scope-walking key lookup, flattening of the
    host's nested language dictionaries, the `.hjson` file filter, entry lookup in a
    localization file, and the queue of comment requests that are later written into the
    files' entries. */
module LangUtils {
  import opened Text

  // ---------------------------------------------------------------------------------------
  // FindKeyInScope

  /** The key tried for scope prefix `i`: the first `i + 1` pieces of the scope, rejoined
      with '.', then '.' and the key. */
  function Candidate(parts: seq<string>, i: nat, key: string): string
    requires i < |parts|
  {
    Join(parts[..i + 1], '.') + "." + key
  }

  /** The longest scope prefix below `n` pieces whose candidate is present: the index of
      its last piece. */
  function LongestScope(search: set<string>, parts: seq<string>, key: string, n: nat): (r: Option<nat>)
    requires n <= |parts|
    ensures r.Some? ==> r.value < n && Candidate(parts, r.value, key) in search
    ensures forall j | (if r.Some? then r.value else -1) < j < n :: Candidate(parts, j, key) !in search
  {
    if n == 0 then None
    else if Candidate(parts, n - 1, key) in search then Some(n - 1)
    else LongestScope(search, parts, key, n - 1)
  }

  /** `FindKeyInScope` against the lookup set `search`: the key itself if present, else the
      candidate of the longest scope prefix present, else null. A null scope throws once the
      key itself is missing. */
  function ScopeSearch(key: string, scope: Option<string>, search: set<string>): (r: Result<Option<string>, Exception>)
    ensures key in search ==> r == Ok(Some(key))
    ensures r.Err? <==> key !in search && scope.None?
    ensures r.Err? ==> r.error == NullReference
    ensures r.Ok? && r.value.Some? ==> r.value.value in search
  {
    if key in search then Ok(Some(key))
    else if scope.None? then Err(NullReference)
    else
      var parts := Split(scope.value, '.');
      var found := LongestScope(search, parts, key, |parts|);
      if found.None? then Ok(None) else Ok(Some(Candidate(parts, found.value, key)))
  }

  /** The longest candidate is the whole scope followed by the key; the result is null
      exactly when no candidate is present. */
  lemma ScopeSearchLongestFirst(key: string, scope: string, search: set<string>)
    requires key !in search
    ensures var parts := Split(scope, '.');
            && Candidate(parts, |parts| - 1, key) == scope + "." + key
            && (scope + "." + key in search ==> ScopeSearch(key, Some(scope), search) == Ok(Some(scope + "." + key)))
            && (ScopeSearch(key, Some(scope), search) == Ok(None) <==>
                  forall j | 0 <= j < |parts| :: Candidate(parts, j, key) !in search)
  {
    var parts := Split(scope, '.');
    assert parts[..|parts|] == parts;
    JoinSplit(scope, '.');
  }

  /** `FindKeyInScope`: a null lookup set stands for the host's localized text keys. */
  method FindKeyInScope(key: string, scope: Option<string>, specificSearch: Option<set<string>>,
                        localizedTexts: set<string>)
    returns (r: Result<Option<string>, Exception>)
    ensures r == ScopeSearch(key, scope, if specificSearch.Some? then specificSearch.value else localizedTexts)
  {
    var search := if specificSearch.Some? then specificSearch.value else localizedTexts;
    if key in search {
      return Ok(Some(key));
    }
    if scope.None? {
      return Err(NullReference);
    }
    var splitKey := Split(scope.value, '.');
    var i := |splitKey| - 1;
    while i >= 0
      invariant -1 <= i < |splitKey|
      invariant LongestScope(search, splitKey, key, |splitKey|) == LongestScope(search, splitKey, key, i + 1)
    {
      var combinedKey := Join(splitKey[..i + 1], '.') + "." + key;
      if combinedKey in search {
        return Ok(Some(combinedKey));
      }
      i := i - 1;
    }
    return Ok(None);
  }

  // ---------------------------------------------------------------------------------------
  // Dictionary.Add in sequence: FlattenVanillaLanguageDict and EntriesListToDictionary

  /** `Dictionary.Add` of each pair in order: a key already present throws. */
  function AddAll(acc: map<string, string>, pairs: seq<(string, string)>): Result<map<string, string>, Exception>
    decreases |pairs|
  {
    if |pairs| == 0 then Ok(acc)
    else if pairs[0].0 in acc then Err(DuplicateKey)
    else AddAll(acc[pairs[0].0 := pairs[0].1], pairs[1..])
  }

  /** No two pairs share a key. */
  predicate DistinctKeys(pairs: seq<(string, string)>)
  {
    forall i, j | 0 <= i < j < |pairs| :: pairs[i].0 != pairs[j].0
  }

  /** The keys of the pairs. */
  function KeysOf(pairs: seq<(string, string)>): set<string>
  {
    set i | 0 <= i < |pairs| :: pairs[i].0
  }

  /** Adding in sequence succeeds exactly when the keys are distinct and new, and then yields
      the old entries plus every pair. */
  lemma {:induction false} AddAllMeaning(acc: map<string, string>, pairs: seq<(string, string)>)
    ensures AddAll(acc, pairs).Ok? <==> DistinctKeys(pairs) && KeysOf(pairs) !! acc.Keys
    ensures AddAll(acc, pairs).Err? ==> AddAll(acc, pairs).error == DuplicateKey
    ensures AddAll(acc, pairs).Ok? ==>
              var m := AddAll(acc, pairs).value;
              && m.Keys == acc.Keys + KeysOf(pairs)
              && (forall k | k in acc :: m[k] == acc[k])
              && (forall i | 0 <= i < |pairs| :: m[pairs[i].0] == pairs[i].1)
    decreases |pairs|
  {
    if |pairs| > 0 {
      var head := pairs[0];
      var rest := pairs[1..];
      assert KeysOf(pairs) == {head.0} + KeysOf(rest) by {
        forall k | k in KeysOf(pairs) ensures k in {head.0} + KeysOf(rest) {
          var i :| 0 <= i < |pairs| && pairs[i].0 == k;
          if i > 0 { assert rest[i - 1] == pairs[i]; }
        }
        forall k | k in KeysOf(rest) ensures k in KeysOf(pairs) {
          var i :| 0 <= i < |rest| && rest[i].0 == k;
          assert pairs[i + 1] == rest[i];
        }
      }
      assert DistinctKeys(pairs) <==> head.0 !in KeysOf(rest) && DistinctKeys(rest) by {
        if DistinctKeys(pairs) {
          forall i, j | 0 <= i < j < |rest| ensures rest[i].0 != rest[j].0 {
            assert rest[i] == pairs[i + 1] && rest[j] == pairs[j + 1];
          }
          forall k | 0 <= k < |rest| ensures rest[k].0 != head.0 {
            assert rest[k] == pairs[k + 1];
          }
        }
        if head.0 !in KeysOf(rest) && DistinctKeys(rest) {
          forall i, j | 0 <= i < j < |pairs| ensures pairs[i].0 != pairs[j].0 {
            assert pairs[j] == rest[j - 1];
            if i > 0 { assert pairs[i] == rest[i - 1]; }
          }
        }
      }
      if head.0 !in acc {
        AddAllMeaning(acc[head.0 := head.1], rest);
        if AddAll(acc, pairs).Ok? {
          var m := AddAll(acc, pairs).value;
          forall i | 0 <= i < |pairs| ensures m[pairs[i].0] == pairs[i].1 {
            if i > 0 { assert pairs[i] == rest[i - 1]; }
          }
        }
      }
    }
  }

  /** Adding two runs of pairs is adding the first, then, unless it threw, the second. */
  lemma {:induction false} AddAllAppend(acc: map<string, string>, xs: seq<(string, string)>, ys: seq<(string, string)>)
    ensures AddAll(acc, xs + ys)
            == if AddAll(acc, xs).Err? then AddAll(acc, xs) else AddAll(AddAll(acc, xs).value, ys)
    decreases |xs|
  {
    if |xs| > 0 {
      assert (xs + ys)[0] == xs[0];
      assert (xs + ys)[1..] == xs[1..] + ys;
      if xs[0].0 !in acc {
        AddAllAppend(acc[xs[0].0 := xs[0].1], xs[1..], ys);
      }
    } else {
      assert xs + ys == ys;
    }
  }

  /** A localization entry of a parsed file: key, value, comment (null when none) and its
      Hjson value type (opaque here). */
  datatype LocalizationEntry = LocalizationEntry(key: string, value: string, comment: Option<string>, kind: int)

  /** The (key, value) pairs of a list of entries. */
  function EntryPairs(entries: seq<LocalizationEntry>): (pairs: seq<(string, string)>)
    ensures |pairs| == |entries|
    ensures forall i | 0 <= i < |entries| :: pairs[i] == (entries[i].key, entries[i].value)
  {
    seq(|entries|, i requires 0 <= i < |entries| => (entries[i].key, entries[i].value))
  }

  /** `EntriesListToDictionary`: each entry's key mapped to its value, throwing on a
      repeated key. */
  method EntriesListToDictionary(entries: seq<LocalizationEntry>) returns (r: Result<map<string, string>, Exception>)
    ensures r == AddAll(map[], EntryPairs(entries))
  {
    var pairs := EntryPairs(entries);
    var dict: map<string, string> := map[];
    for i := 0 to |entries|
      invariant AddAll(map[], pairs) == AddAll(dict, pairs[i..])
    {
      var entry := entries[i];
      assert pairs[i..][0] == (entry.key, entry.value) && pairs[i..][1..] == pairs[i + 1..];
      if entry.key in dict {
        return Err(DuplicateKey);
      }
      dict := dict[entry.key := entry.value];
    }
    r := Ok(dict);
  }

  /** The dictionary holds every entry under its key exactly when the keys are distinct. */
  lemma EntriesListToDictionaryMeaning(entries: seq<LocalizationEntry>)
    ensures var r := AddAll(map[], EntryPairs(entries));
            && (r.Ok? <==> forall i, j | 0 <= i < j < |entries| :: entries[i].key != entries[j].key)
            && (r.Ok? ==> r.value.Keys == (set i | 0 <= i < |entries| :: entries[i].key)
                          && forall i | 0 <= i < |entries| :: r.value[entries[i].key] == entries[i].value)
  {
    var pairs := EntryPairs(entries);
    AddAllMeaning(map[], pairs);
    assert KeysOf(pairs) == set i | 0 <= i < |entries| :: entries[i].key;
    assert DistinctKeys(pairs) <==> forall i, j | 0 <= i < j < |entries| :: entries[i].key != entries[j].key;
  }

  /** One inner dictionary's pairs with their keys prefixed by the outer key and '.'. */
  function Prefixed(outer: string, inner: seq<(string, string)>): (pairs: seq<(string, string)>)
    ensures |pairs| == |inner|
    ensures forall i | 0 <= i < |inner| :: pairs[i] == (outer + "." + inner[i].0, inner[i].1)
  {
    seq(|inner|, i requires 0 <= i < |inner| => (outer + "." + inner[i].0, inner[i].1))
  }

  /** Every flattened pair, outer dictionaries in enumeration order. */
  function FlatPairs(original: seq<(string, seq<(string, string)>)>): seq<(string, string)>
  {
    if |original| == 0 then [] else Prefixed(original[0].0, original[0].1) + FlatPairs(original[1..])
  }

  /** `FlattenVanillaLanguageDict` from the accumulated dictionary `acc`: each outer
      dictionary's prefixed pairs added in turn. A dictionary is its entries in enumeration
      order. */
  function FlattenFrom(acc: map<string, string>, original: seq<(string, seq<(string, string)>)>)
    : Result<map<string, string>, Exception>
    decreases |original|, 0
  {
    if |original| == 0 then Ok(acc)
    else Continue(AddAll(acc, Prefixed(original[0].0, original[0].1)), original[1..])
  }

  /** Carries on flattening `rest` after `r`, unless `r` threw. */
  function Continue(r: Result<map<string, string>, Exception>, rest: seq<(string, seq<(string, string)>)>)
    : Result<map<string, string>, Exception>
    decreases |rest|, 1
  {
    if r.Err? then r else FlattenFrom(r.value, rest)
  }

  /** Flattening adds every flattened pair in sequence. */
  lemma {:induction false} FlattenFromIsAddAll(acc: map<string, string>, original: seq<(string, seq<(string, string)>)>)
    ensures FlattenFrom(acc, original) == AddAll(acc, FlatPairs(original))
    decreases |original|
  {
    if |original| > 0 {
      var first := Prefixed(original[0].0, original[0].1);
      AddAllAppend(acc, first, FlatPairs(original[1..]));
      if AddAll(acc, first).Ok? {
        FlattenFromIsAddAll(AddAll(acc, first).value, original[1..]);
      }
    }
  }

  /** `FlattenVanillaLanguageDict`: "outer.inner" mapped to the inner value. */
  method FlattenVanillaLanguageDict(original: seq<(string, seq<(string, string)>)>)
    returns (r: Result<map<string, string>, Exception>)
    ensures r == FlattenFrom(map[], original)
  {
    var result: map<string, string> := map[];
    for i := 0 to |original|
      invariant FlattenFrom(map[], original) == FlattenFrom(result, original[i..])
    {
      var outer := original[i].0;
      var inner := original[i].1;
      assert original[i..][0] == original[i] && original[i..][1..] == original[i + 1..];
      assert inner[0..] == inner;
      for j := 0 to |inner|
        invariant FlattenFrom(map[], original)
                  == Continue(AddAll(result, Prefixed(outer, inner[j..])), original[i + 1..])
      {
        var key := outer + "." + inner[j].0;
        assert Prefixed(outer, inner[j..])[0] == (key, inner[j].1);
        assert Prefixed(outer, inner[j..])[1..] == Prefixed(outer, inner[j + 1..]);
        if key in result {
          return Err(DuplicateKey);
        }
        result := result[key := inner[j].1];
      }
      assert Prefixed(outer, inner[|inner|..]) == [];
    }
    r := Ok(result);
  }

  /** Flattening succeeds exactly when no two flattened keys coincide, and then maps each
      "outer.inner" to its inner value and holds nothing else. */
  lemma FlattenMeaning(original: seq<(string, seq<(string, string)>)>)
    ensures var r := FlattenFrom(map[], original);
            var pairs := FlatPairs(original);
            && (r.Ok? <==> DistinctKeys(pairs))
            && (r.Err? ==> r.error == DuplicateKey)
            && (r.Ok? ==> r.value.Keys == KeysOf(pairs))
            && (r.Ok? ==> forall i, j | 0 <= i < |original| && 0 <= j < |original[i].1| ::
                            (original[i].0 + "." + original[i].1[j].0) in r.value
                            && r.value[original[i].0 + "." + original[i].1[j].0] == original[i].1[j].1)
  {
    FlattenFromIsAddAll(map[], original);
    AddAllMeaning(map[], FlatPairs(original));
    var r := FlattenFrom(map[], original);
    if r.Ok? {
      forall i, j | 0 <= i < |original| && 0 <= j < |original[i].1|
        ensures (original[i].0 + "." + original[i].1[j].0) in r.value
                && r.value[original[i].0 + "." + original[i].1[j].0] == original[i].1[j].1
      {
        var k := FlatIndex(original, i, j);
      }
    }
  }

  /** Where the `j`th pair of the `i`th inner dictionary sits among the flattened pairs. */
  lemma {:induction false} FlatIndex(original: seq<(string, seq<(string, string)>)>, i: nat, j: nat) returns (k: nat)
    requires i < |original| && j < |original[i].1|
    ensures k < |FlatPairs(original)|
    ensures FlatPairs(original)[k] == (original[i].0 + "." + original[i].1[j].0, original[i].1[j].1)
    decreases i
  {
    var first := Prefixed(original[0].0, original[0].1);
    if i == 0 {
      k := j;
    } else {
      var k' := FlatIndex(original[1..], i - 1, j);
      k := |first| + k';
    }
  }

  /** Two outer keys whose joins coincide make flattening throw, as with "A" holding "B.C"
      and "A.B" holding "C". */
  lemma FlattenCollisionThrows(a: string, b: string, va: string, vb: string, x: string, y: string)
    requires a + "." + x == b + "." + y && a != b
    ensures FlattenFrom(map[], [(a, [(x, va)]), (b, [(y, vb)])]) == Err(DuplicateKey)
  {
    var original := [(a, [(x, va)]), (b, [(y, vb)])];
    FlattenFromIsAddAll(map[], original);
    assert Prefixed(a, [(x, va)]) == [(a + "." + x, va)];
    assert Prefixed(b, [(y, vb)]) == [(b + "." + y, vb)];
    assert original[1..][1..] == [];
    assert FlatPairs(original[1..]) == [(b + "." + y, vb)];
    assert FlatPairs(original) == [(a + "." + x, va), (b + "." + y, vb)];
  }

  // ---------------------------------------------------------------------------------------
  // GetLocalizationFiles

  /** An entry of a mod's packed file table, by path. */
  datatype FileEntry = FileEntry(name: string)

  /** A mod's `TmodFile`: whether it is open, and its file table. */
  datatype TmodFile = TmodFile(isOpen: bool, fileTable: seq<FileEntry>)

  /** A localization file: an `.hjson` path, which must name the base culture when only base
      files are wanted. */
  predicate IsLocalizationFile(e: FileEntry, onlyBase: bool)
  {
    (!onlyBase || Contains(e.name, "en-US")) && EndsWith(e.name, ".hjson")
  }

  /** The localization files of a table, in table order. */
  function LocalizationFiles(table: seq<FileEntry>, onlyBase: bool): (files: seq<FileEntry>)
    ensures |files| <= |table|
  {
    if |table| == 0 then []
    else
      var last := table[|table| - 1];
      var front := LocalizationFiles(table[..|table| - 1], onlyBase);
      front + (if IsLocalizationFile(last, onlyBase) then [last] else [])
  }

  /** The filter keeps exactly the table's localization files. */
  lemma {:induction false} LocalizationFilesMembers(table: seq<FileEntry>, onlyBase: bool)
    ensures forall e | e in LocalizationFiles(table, onlyBase) :: e in table && IsLocalizationFile(e, onlyBase)
    ensures forall e | e in table && IsLocalizationFile(e, onlyBase) :: e in LocalizationFiles(table, onlyBase)
    decreases |table|
  {
    if |table| > 0 {
      LocalizationFilesMembers(table[..|table| - 1], onlyBase);
      assert forall e | e in table :: e in table[..|table| - 1] || e == table[|table| - 1];
    }
  }

  /** The filter keeps order: filtering a concatenation filters each part. Filtering again
      changes nothing. */
  lemma {:induction false} LocalizationFilesKeepOrder(xs: seq<FileEntry>, ys: seq<FileEntry>, onlyBase: bool)
    ensures LocalizationFiles(xs + ys, onlyBase) == LocalizationFiles(xs, onlyBase) + LocalizationFiles(ys, onlyBase)
    decreases |ys|
  {
    if |ys| == 0 {
      assert xs + ys == xs;
    } else {
      var ys' := ys[..|ys| - 1];
      assert (xs + ys)[..|xs + ys| - 1] == xs + ys';
      LocalizationFilesKeepOrder(xs, ys', onlyBase);
    }
  }

  lemma {:induction false} LocalizationFilesIdempotent(table: seq<FileEntry>, onlyBase: bool)
    ensures LocalizationFiles(LocalizationFiles(table, onlyBase), onlyBase) == LocalizationFiles(table, onlyBase)
    decreases |table|
  {
    if |table| > 0 {
      var last := table[|table| - 1];
      var front := LocalizationFiles(table[..|table| - 1], onlyBase);
      LocalizationFilesIdempotent(table[..|table| - 1], onlyBase);
      var tail := if IsLocalizationFile(last, onlyBase) then [last] else [];
      LocalizationFilesKeepOrder(front, tail, onlyBase);
      if IsLocalizationFile(last, onlyBase) {
        assert ([last])[..0] == [];
      }
    }
  }

  /** `GetLocalizationFiles`: null when the file is closed; otherwise the localization files
      collected into an array as long as the table, then resized to their count. A null
      `TmodFile` throws. */
  method GetLocalizationFiles(file: Option<TmodFile>, onlyBase: bool) returns (r: Result<Option<array<FileEntry>>, Exception>)
    ensures r.Err? <==> file.None?
    ensures r.Err? ==> r.error == NullReference
    ensures r.Ok? ==> (r.value.Some? <==> file.value.isOpen)
    ensures r.Ok? && r.value.Some? ==>
              fresh(r.value.value) && r.value.value[..] == LocalizationFiles(file.value.fileTable, onlyBase)
  {
    if file.None? {
      return Err(NullReference);
    }
    var tmod := file.value;
    if !tmod.isOpen {
      return Ok(None);
    }
    var table := tmod.fileTable;
    var arr := new FileEntry[|table|];
    var j := 0;
    for i := 0 to |table|
      invariant 0 <= j <= i
      invariant arr[..j] == LocalizationFiles(table[..i], onlyBase)
    {
      var entry := table[i];
      assert table[..i + 1][..i] == table[..i];
      if onlyBase && !Contains(entry.name, "en-US") {
        continue;
      }
      if EndsWith(entry.name, ".hjson") {
        arr[j] := entry;
        j := j + 1;
      }
    }
    assert table[..|table|] == table;
    var resized := Resize(arr, j, FileEntry(""));
    assert resized[..] == arr[..j];
    r := Ok(Some(resized));
  }

  // ---------------------------------------------------------------------------------------
  // TryGetEntry

  /** The key `TryGetEntry` searches for, as written: a key not starting with the file's
      prefix is replaced by the prefix followed by the literal text ".key", because the
      interpolation leaves `key` outside braces. */
  function LookupKeyAsWritten(prefix: string, key: string): (k: string)
    ensures StartsWith(key, prefix) ==> k == key
    ensures !StartsWith(key, prefix) ==> k == prefix + ".key"
  {
    if StartsWith(key, prefix) then key else prefix + ".key"
  }

  /** The key `TryGetEntry` is meant to search for: a key without the prefix gets the prefix
      and '.' put in front. */
  function LookupKey(prefix: string, key: string): (k: string)
    ensures StartsWith(k, prefix)
    ensures StartsWith(key, prefix) ==> k == key
    ensures !StartsWith(key, prefix) ==> k == prefix + "." + key
  {
    if StartsWith(key, prefix) then key else prefix + "." + key
  }

  /** The first entry from index `from` on whose key equals `key`. */
  function FirstEntry(entries: seq<LocalizationEntry>, key: string, from: nat): (r: Option<nat>)
    requires from <= |entries|
    ensures r.Some? ==> from <= r.value < |entries| && entries[r.value].key == key
    ensures forall j | from <= j < (if r.Some? then r.value else |entries|) :: entries[j].key != key
    decreases |entries| - from
  {
    if from == |entries| then None
    else if entries[from].key == key then Some(from)
    else FirstEntry(entries, key, from + 1)
  }

  /** `TryGetEntry` as written: the entry found for `key`. */
  function TryGetEntryAsWritten(prefix: string, entries: seq<LocalizationEntry>, key: string): Option<nat>
  {
    FirstEntry(entries, LookupKeyAsWritten(prefix, key), 0)
  }

  /** A file whose only entry is the prefix, '.' and a key (say "Mods.Example.Title"): the
      key without the prefix ("Title") is meant to find that entry, but as written the search
      is for the prefix followed by ".key" and finds nothing. */
  lemma UnprefixedKeyMissedAsWritten(prefix: string, key: string, value: string, kind: int)
    requires !StartsWith(key, prefix) && key != "key"
    ensures var entries := [LocalizationEntry(prefix + "." + key, value, None, kind)];
            && TryGetEntryAsWritten(prefix, entries, key).None?
            && FirstEntry(entries, LookupKey(prefix, key), 0) == Some(0)
  {
    var entries := [LocalizationEntry(prefix + "." + key, value, None, kind)];
    assert (prefix + ".key")[|prefix| + 1..] == "key";
    assert (prefix + "." + key)[|prefix| + 1..] == key;
    assert FirstEntry(entries, prefix + ".key", 1) == None;
  }

  /** For a key that already carries the prefix, the written and the intended lookups agree;
      comment requests always carry full keys, so they meet only this case. */
  lemma PrefixedKeysUnaffected(prefix: string, entries: seq<LocalizationEntry>, key: string)
    requires StartsWith(key, prefix)
    ensures TryGetEntryAsWritten(prefix, entries, key) == FirstEntry(entries, LookupKey(prefix, key), 0)
  {
  }

  /** The intended lookup finds the same entry whether or not the caller writes the prefix. */
  lemma LookupKeyPrefixOptional(prefix: string, key: string)
    requires !StartsWith(key, prefix)
    ensures LookupKey(prefix, key) == LookupKey(prefix, prefix + "." + key)
  {
    assert (prefix + "." + key)[..|prefix|] == prefix;
  }

  /** The hjson comment delimiter styles. */
  datatype HjsonCommentType = Slashes | Hash

  /** One queued request: the mod's name, the full key, the comment text, its style and
      whether it replaces the entry's comment. */
  datatype QueuedComment = QueuedComment(mod: string, key: string, comment: string,
                                         commentType: HjsonCommentType, overwriteComment: bool)

  /** The request without its mod, as batched per mod. */
  datatype CommentAction = CommentAction(key: string, comment: string, commentType: HjsonCommentType,
                                         overwriteComment: bool)

  /** The entry with its comment rewritten: overwriting gives the style's delimiter and the
      comment, appending gives the old comment (null reads as empty) and the comment. */
  function ComposeComment(e: LocalizationEntry, comment: string, commentType: HjsonCommentType,
                          overwriteComment: bool): (r: LocalizationEntry)
    ensures r.key == e.key && r.value == e.value && r.kind == e.kind && r.comment.Some?
    ensures overwriteComment && commentType == Slashes ==> r.comment.value == "// " + comment
    ensures overwriteComment && commentType == Hash ==> r.comment.value == "# " + comment
    ensures !overwriteComment ==> r.comment.value == Concat(e.comment, comment)
  {
    var finalComment := if overwriteComment then (if commentType == Slashes then "// " else "# ") + comment
                        else Concat(e.comment, comment);
    LocalizationEntry(e.key, e.value, Some(finalComment), e.kind)
  }

  /** Overwriting twice with the same comment is overwriting once; appending keeps the old
      comment as a prefix. */
  lemma ComposeCommentLaws(e: LocalizationEntry, comment: string, commentType: HjsonCommentType)
    ensures ComposeComment(ComposeComment(e, comment, commentType, true), comment, commentType, true)
            == ComposeComment(e, comment, commentType, true)
    ensures e.comment.Some? ==> StartsWith(ComposeComment(e, comment, commentType, false).comment.value, e.comment.value)
  {
    if e.comment.Some? {
      assert (e.comment.value + comment)[..|e.comment.value|] == e.comment.value;
    }
  }

  /** The entries after one comment request: the entry found for its key gets the composed
      comment; with none found the request is skipped. */
  function ApplyOne(prefix: string, entries: seq<LocalizationEntry>, a: CommentAction): (r: seq<LocalizationEntry>)
  {
    var found := FirstEntry(entries, LookupKey(prefix, a.key), 0);
    if found.None? then entries
    else entries[found.value := ComposeComment(entries[found.value], a.comment, a.commentType, a.overwriteComment)]
  }

  /** The entries after a file's requests, in order. */
  function ApplyAll(prefix: string, entries: seq<LocalizationEntry>, actions: seq<CommentAction>): seq<LocalizationEntry>
  {
    if |actions| == 0 then entries
    else ApplyOne(prefix, ApplyAll(prefix, entries, actions[..|actions| - 1]), actions[|actions| - 1])
  }

  /** Comment requests change only comments: the number of entries and every entry's key,
      value and type stay, and so the file still resolves every key to the same entry. */
  lemma {:induction false} ApplyAllKeepsEntries(prefix: string, entries: seq<LocalizationEntry>, actions: seq<CommentAction>)
    ensures var r := ApplyAll(prefix, entries, actions);
            |r| == |entries|
            && forall i | 0 <= i < |entries| ::
                 r[i].key == entries[i].key && r[i].value == entries[i].value && r[i].kind == entries[i].kind
    decreases |actions|
  {
    if |actions| > 0 {
      ApplyAllKeepsEntries(prefix, entries, actions[..|actions| - 1]);
    }
  }

  /** A parsed localization file: its key prefix and its entry list. */
  class LocalizationFile {
    const prefix: string
    var entries: seq<LocalizationEntry>

    constructor (prefix: string, entries: seq<LocalizationEntry>)
      ensures this.prefix == prefix && this.entries == entries
    {
      this.prefix := prefix;
      this.entries := entries;
    }

    /** `TryGetEntry`, with the key completed as intended: the index of the first entry
        whose key equals the completed key, or none. */
    method TryGetEntry(key: string) returns (entry: Option<nat>)
      ensures entry == FirstEntry(entries, LookupKey(prefix, key), 0)
      ensures entry.Some? ==> entry.value < |entries| && StartsWith(entries[entry.value].key, prefix)
    {
      var lookup := if StartsWith(key, prefix) then key else prefix + "." + key;
      var i := 0;
      while i < |entries|
        invariant 0 <= i <= |entries|
        invariant FirstEntry(entries, lookup, 0) == FirstEntry(entries, lookup, i)
      {
        if entries[i].key == lookup {
          return Some(i);
        }
        i := i + 1;
      }
      return None;
    }

    /** The per-file part of `ConsumeCommentsQueue`: each request, in order, rewrites the
        comment of the entry found for its key, and a request whose key is not found is
        skipped. */
    method AddComments(actions: seq<CommentAction>)
      modifies this
      ensures entries == ApplyAll(prefix, old(entries), actions)
    {
      for i := 0 to |actions|
        invariant entries == ApplyAll(prefix, old(entries), actions[..i])
      {
        var a := actions[i];
        assert actions[..i + 1][..i] == actions[..i];
        var entry := TryGetEntry(a.key);
        if entry.None? {
          continue;
        }
        entries := entries[entry.value := ComposeComment(entries[entry.value], a.comment, a.commentType,
                                                         a.overwriteComment)];
      }
      assert actions[..|actions|] == actions;
    }
  }

  // ---------------------------------------------------------------------------------------
  // AddComment and the request queue

  /** What `AddComment` learns about the mod a key names: whether its `TmodFile` is missing
      (`None`) or open, whether its source folder exists, and whether its locally built
      package exists. */
  datatype ModFiles = ModFiles(fileOpen: Option<bool>, sourceFolderExists: bool, localBuildExists: bool)

  /** `AddComment`, as a step over the set of mods already checked and the queue. Keys the
      host does not know and keys whose first '.'-piece is not "Mods" are refused; a lone
      "Mods" has no second piece and throws; an unloaded mod, a missing or closed file, and
      for a mod not yet checked a missing source folder or local build, are refused.
      Otherwise the mod is marked checked and the request queued. */
  function AddCommentStep(checked: set<string>, queue: seq<QueuedComment>, key: string, comment: string,
                          commentType: HjsonCommentType, overwriteComment: bool,
                          keyExists: bool, mods: map<string, ModFiles>)
    : (s: (Result<bool, Exception>, set<string>, seq<QueuedComment>))
  {
    if !keyExists then (Ok(false), checked, queue)
    else
      var parts := Split(key, '.');
      if parts[0] != "Mods" then (Ok(false), checked, queue)
      else if |parts| < 2 then (Err(IndexOutOfRange), checked, queue)
      else
        var name := parts[1];
        if name !in mods || mods[name].fileOpen != Some(true) then (Ok(false), checked, queue)
        else if name !in checked && !(mods[name].sourceFolderExists && mods[name].localBuildExists)
        then (Ok(false), checked, queue)
        else (Ok(true), checked + {name}, queue + [QueuedComment(name, key, comment, commentType, overwriteComment)])
  }

  /** A refused request changes nothing; an accepted one queues exactly this request, under
      the mod named by the key's second piece, and marks that mod checked; a key outside
      "Mods." is always refused. */
  lemma AddCommentOutcomes(checked: set<string>, queue: seq<QueuedComment>, key: string, comment: string,
                           commentType: HjsonCommentType, overwriteComment: bool,
                           keyExists: bool, mods: map<string, ModFiles>)
    ensures var s := AddCommentStep(checked, queue, key, comment, commentType, overwriteComment, keyExists, mods);
            && (s.0 != Ok(true) ==> s.1 == checked && s.2 == queue)
            && (Split(key, '.')[0] != "Mods" ==> s.0 == Ok(false))
            && (s.0 == Ok(true) ==>
                  keyExists && |Split(key, '.')| >= 2 && Split(key, '.')[0] == "Mods"
                  && s.2 == queue + [QueuedComment(Split(key, '.')[1], key, comment, commentType, overwriteComment)]
                  && s.1 == checked + {Split(key, '.')[1]}
                  && Split(key, '.')[1] in mods && mods[Split(key, '.')[1]].fileOpen == Some(true))
  {
  }

  /** Once a mod is checked its source folder and build are not looked at again: an open
      mod's request is accepted. */
  lemma CheckedModAccepted(checked: set<string>, queue: seq<QueuedComment>, key: string, comment: string,
                           commentType: HjsonCommentType, overwriteComment: bool, mods: map<string, ModFiles>)
    requires |Split(key, '.')| >= 2 && Split(key, '.')[0] == "Mods"
    requires Split(key, '.')[1] in checked && Split(key, '.')[1] in mods
    requires mods[Split(key, '.')[1]].fileOpen == Some(true)
    ensures AddCommentStep(checked, queue, key, comment, commentType, overwriteComment, true, mods).0 == Ok(true)
  {
  }

  /** The requests of one mod, in queue order. */
  function ModBatch(queue: seq<QueuedComment>, mod: string): seq<CommentAction>
  {
    if |queue| == 0 then []
    else
      var c := queue[|queue| - 1];
      ModBatch(queue[..|queue| - 1], mod)
      + (if c.mod == mod then [CommentAction(c.key, c.comment, c.commentType, c.overwriteComment)] else [])
  }

  /** The batches `ConsumeCommentsQueue` builds while draining the queue: a list per mod,
      created on the mod's first request, each request appended to its mod's list. */
  function Batches(queue: seq<QueuedComment>): map<string, seq<CommentAction>>
  {
    if |queue| == 0 then map[]
    else
      var batches := Batches(queue[..|queue| - 1]);
      var c := queue[|queue| - 1];
      var list := if c.mod in batches then batches[c.mod] else [];
      batches[c.mod := list + [CommentAction(c.key, c.comment, c.commentType, c.overwriteComment)]]
  }

  /** The batches hold a list for exactly the mods with requests, and each mod's list is its
      requests in queue order. */
  lemma {:induction false} BatchesMeaning(queue: seq<QueuedComment>)
    ensures forall m :: m in Batches(queue) <==> ModBatch(queue, m) != []
    ensures forall m | m in Batches(queue) :: Batches(queue)[m] == ModBatch(queue, m)
    decreases |queue|
  {
    if |queue| > 0 {
      BatchesMeaning(queue[..|queue| - 1]);
    }
  }

  /** The comment state of `LangUtils`: the mods already checked, the request queue, and
      the flag telling that files are about to be rewritten. */
  class CommentQueue {
    var probablyValidMods: set<string>
    var commentsQueue: seq<QueuedComment>
    var filesWillBeReloaded: bool

    constructor ()
      ensures probablyValidMods == {} && commentsQueue == [] && !filesWillBeReloaded
    {
      probablyValidMods := {};
      commentsQueue := [];
      filesWillBeReloaded := false;
    }

    /** `AddComment`. `keyExists` is the host's `Language.Exists(key)`; `mods` what is known
        of the loaded mods' files. */
    method AddComment(key: string, comment: string, keyExists: bool, mods: map<string, ModFiles>,
                      commentType: HjsonCommentType := Slashes, overwriteComment: bool := true)
      returns (r: Result<bool, Exception>)
      modifies this`probablyValidMods, this`commentsQueue
      ensures (r, probablyValidMods, commentsQueue)
              == AddCommentStep(old(probablyValidMods), old(commentsQueue), key, comment, commentType,
                                overwriteComment, keyExists, mods)
    {
      if !keyExists {
        return Ok(false);
      }
      var parts := Split(key, '.');
      if parts[0] != "Mods" {
        return Ok(false);
      }
      if |parts| < 2 {
        return Err(IndexOutOfRange);
      }
      var name := parts[1];
      if name !in mods || mods[name].fileOpen.None? || !mods[name].fileOpen.value {
        return Ok(false);
      }
      if name !in probablyValidMods {
        if !mods[name].sourceFolderExists {
          return Ok(false);
        }
        if !mods[name].localBuildExists {
          return Ok(false);
        }
      }
      probablyValidMods := probablyValidMods + {name};
      commentsQueue := commentsQueue + [QueuedComment(name, key, comment, commentType, overwriteComment)];
      return Ok(true);
    }

    /** The draining part of `ConsumeCommentsQueue`: with an empty queue nothing happens;
        otherwise the reload flag is set and every request is moved, in order, into its
        mod's batch. */
    method DrainQueue() returns (batches: map<string, seq<CommentAction>>)
      modifies this`commentsQueue, this`filesWillBeReloaded
      ensures batches == Batches(old(commentsQueue)) && commentsQueue == []
      ensures filesWillBeReloaded == (old(filesWillBeReloaded) || old(commentsQueue) != [])
    {
      if commentsQueue == [] {
        return map[];
      }
      filesWillBeReloaded := true;
      batches := map[];
      ghost var queued := commentsQueue;
      var i := 0;
      while commentsQueue != []
        invariant 0 <= i <= |queued| && commentsQueue == queued[i..] && filesWillBeReloaded
        invariant batches == Batches(queued[..i])
        decreases |commentsQueue|
      {
        var comment := commentsQueue[0];
        commentsQueue := commentsQueue[1..];
        assert queued[..i + 1][..i] == queued[..i];
        if comment.mod !in batches {
          batches := batches[comment.mod := []];
        }
        batches := batches[comment.mod := batches[comment.mod]
                             + [CommentAction(comment.key, comment.comment, comment.commentType, comment.overwriteComment)]];
        i := i + 1;
      }
      assert queued[..i] == queued;
    }
  }
}
