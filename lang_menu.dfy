/** The paged language menu (`BetterLangMenuV2`): the integer part of its layout, paging and
    per-button bookkeeping. Pixel offsets, colours, textures and sounds are not modelled; a
    button's position is kept as its (column, row) cell. */
module LangMenu {
  import opened Text
  import opened Cultures

  // ---------------------------------------------------------------- button text

  /** `ButtonText`: the localization keys a button displays. A `LocalizedText` is modelled by
      its key; a key that is never registered is `None`. The default struct has `init` false. */
  datatype ButtonText = ButtonText(init: bool, title: Option<string>, subtitle: Option<string>,
                                   description: Option<string>)

  const NoButtonText := ButtonText(false, None, None, None)

  /** The key prefix shared by every text of one culture's button. */
  function CultureKey(c: MoreLocalesCulture): string
  {
    "Mods." + c.OwnerFunctionalName() + ".Cultures." + c.name
  }

  /** The key of one text (`Title`, `Subtitle` or `Description`) of a culture's button. */
  function PartKey(c: MoreLocalesCulture, part: string): string
  {
    CultureKey(c) + "." + part
  }

  /** `new ButtonText(source)`: the title is always registered, the subtitle and the
      description only when the culture declares them. */
  function ButtonTextFor(c: MoreLocalesCulture): (t: ButtonText)
    ensures t.init && t.title.Some?
    ensures t.subtitle.Some? <==> c.hasSubtitle
    ensures t.description.Some? <==> c.hasDescription
  {
    ButtonText(true, Some(PartKey(c, "Title")),
               if c.hasSubtitle then Some(PartKey(c, "Subtitle")) else None,
               if c.hasDescription then Some(PartKey(c, "Description")) else None)
  }

  /** Joining five pieces puts a separator between each neighbouring pair. */
  lemma JoinFive(p0: string, p1: string, p2: string, p3: string, p4: string, sep: char)
    ensures Join([p0, p1, p2, p3, p4], sep) == p0 + [sep] + (p1 + [sep] + (p2 + [sep] + (p3 + [sep] + p4)))
  {
    var parts := [p0, p1, p2, p3, p4];
    assert Join([p4], sep) == p4;
    assert [p3] + [p4] == parts[3..];
    JoinCons(p3, [p4], sep);
    assert [p2] + parts[3..] == parts[2..];
    JoinCons(p2, parts[3..], sep);
    assert [p1] + parts[2..] == parts[1..];
    JoinCons(p1, parts[2..], sep);
    assert [p0] + parts[1..] == parts;
    JoinCons(p0, parts[1..], sep);
  }

  /** A key built from dot-free names is the dotted join of its five parts, and splitting it
      at the dots gives them back. */
  lemma KeyParts(c: MoreLocalesCulture, part: string)
    requires '.' !in c.OwnerFunctionalName() && '.' !in c.name && '.' !in part
    ensures PartKey(c, part) == Join(["Mods", c.OwnerFunctionalName(), "Cultures", c.name, part], '.')
    ensures Split(PartKey(c, part), '.') == ["Mods", c.OwnerFunctionalName(), "Cultures", c.name, part]
  {
    var owner, name := c.OwnerFunctionalName(), c.name;
    var parts := ["Mods", owner, "Cultures", name, part];
    JoinFive("Mods", owner, "Cultures", name, part, '.');
    assert "Mods." == "Mods" + ['.'] && ".Cultures." == ['.'] + "Cultures" + ['.'];
    assert PartKey(c, part) == "Mods" + ['.'] + (owner + ['.'] + ("Cultures" + ['.'] + (name + ['.'] + part)));
    forall k | 0 <= k < |parts|
      ensures '.' !in parts[k]
    {
    }
    SplitJoin(parts, '.');
  }

  /** Every key of a button has the shape `Mods.{Owner}.Cultures.{Name}.{Part}` (the owner is
      this mod for a vanilla culture); with dot-free names its dotted parts are exactly those
      five. */
  lemma ButtonTextKeys(c: MoreLocalesCulture)
    requires '.' !in c.OwnerFunctionalName() && '.' !in c.name
    ensures var t := ButtonTextFor(c);
      && Split(t.title.value, '.') == ["Mods", c.OwnerFunctionalName(), "Cultures", c.name, "Title"]
      && (t.subtitle.Some? ==>
            Split(t.subtitle.value, '.') == ["Mods", c.OwnerFunctionalName(), "Cultures", c.name, "Subtitle"])
      && (t.description.Some? ==>
            Split(t.description.value, '.') == ["Mods", c.OwnerFunctionalName(), "Cultures", c.name, "Description"])
  {
    KeyParts(c, "Title");
    if c.hasSubtitle {
      KeyParts(c, "Subtitle");
    }
    if c.hasDescription {
      KeyParts(c, "Description");
    }
  }

  /** Two cultures with dot-free names share a title key only if they have the same owner and
      the same internal name. */
  lemma TitleKeysDistinct(c: MoreLocalesCulture, d: MoreLocalesCulture)
    requires '.' !in c.OwnerFunctionalName() && '.' !in c.name
    requires '.' !in d.OwnerFunctionalName() && '.' !in d.name
    requires c.OwnerFunctionalName() != d.OwnerFunctionalName() || c.name != d.name
    ensures ButtonTextFor(c).title != ButtonTextFor(d).title
  {
    ButtonTextKeys(c);
    ButtonTextKeys(d);
    var pc := ["Mods", c.OwnerFunctionalName(), "Cultures", c.name, "Title"];
    var pd := ["Mods", d.OwnerFunctionalName(), "Cultures", d.name, "Title"];
    assert pc[1] != pd[1] || pc[3] != pd[3];
  }

  // ---------------------------------------------------------------- paging

  /** `Math.Max(columns * rows, 1)`. */
  function ItemsPerPage(columns: int, rows: int): (ipp: int)
    ensures ipp >= 1
    ensures columns * rows >= 1 ==> ipp == columns * rows
  {
    if columns * rows >= 1 then columns * rows else 1
  }

  /** The page count for a registry of `count` slots, slot 0 being the dummy entry. C#'s
      truncating division agrees with Dafny's here: the numerator is negative only for
      `count == 0` with one item per page, and -1 / 1 is -1 either way. */
  function MaxPage(count: nat, ipp: int): int
    requires ipp >= 1
  {
    ((count - 1) + ipp - 1) / ipp
  }

  /** `maxPage` is the number of pages the `count - 1` real entries need: the ceiling of their
      number over the page size, and 0 exactly when only the dummy entry exists. */
  lemma MaxPageIsCeiling(count: nat, ipp: int)
    requires count >= 1 && ipp >= 1
    ensures MaxPage(count, ipp) >= 0
    ensures MaxPage(count, ipp) * ipp >= count - 1
    ensures MaxPage(count, ipp) == 0 || (MaxPage(count, ipp) - 1) * ipp < count - 1
    ensures MaxPage(count, ipp) == 0 <==> count == 1
  {
    var n := (count - 1) + ipp - 1;
    var q := n / ipp;
    var m := n % ipp;
    assert n == q * ipp + m && 0 <= m < ipp;
    assert q * ipp == count - 1 + (ipp - 1 - m);
    assert (q - 1) * ipp == q * ipp - ipp;
  }

  /** The page update of one frame: a key press moves by `direction` and is clamped into
      `[0, maxPage - 1]`; in every frame a page at or past `maxPage` is pulled back to
      `maxPage - 1`, which is -1 when only the dummy entry exists. */
  function PageStep(current: int, changed: bool, direction: int, maxPage: int): (p: int)
    ensures changed && maxPage >= 1 ==> 0 <= p < maxPage
    ensures changed && 0 <= current + direction < maxPage ==> p == current + direction
    ensures changed && maxPage >= 1 && current + direction < 0 ==> p == 0
    ensures changed && current + direction >= maxPage ==> p == maxPage - 1
    ensures changed && maxPage < 1 ==> p == maxPage - 1
    ensures !changed && current < maxPage ==> p == current
    ensures !changed && current >= maxPage ==> p == maxPage - 1
    ensures maxPage >= 1 && 0 <= current ==> 0 <= p < maxPage
  {
    var moved :=
      if !changed then current
      else if current + direction < 0 then 0
      else if current + direction >= maxPage then maxPage - 1
      else current + direction;
    if moved >= maxPage then maxPage - 1 else moved
  }

  datatype Key = E | Q

  /** `JustPressed(key)`: down in this frame's keyboard state and up in the previous one. */
  predicate JustPressed(keyState: set<Key>, oldKeyState: set<Key>, key: Key)
  {
    key in keyState && key !in oldKeyState
  }

  /** `PageChanged`: E moves right, Q moves left. A press of either reports a change; pressing
      both reports a change of direction 0. */
  method PageChanged(keyState: set<Key>, oldKeyState: set<Key>) returns (changed: bool, direction: int)
    ensures changed <==> JustPressed(keyState, oldKeyState, E) || JustPressed(keyState, oldKeyState, Q)
    ensures direction == 1 <==> JustPressed(keyState, oldKeyState, E) && !JustPressed(keyState, oldKeyState, Q)
    ensures direction == -1 <==> JustPressed(keyState, oldKeyState, Q) && !JustPressed(keyState, oldKeyState, E)
    ensures direction == 0 || direction == 1 || direction == -1
  {
    direction := 0;
    var goRight := E in keyState && E !in oldKeyState;
    var goLeft := Q in keyState && Q !in oldKeyState;
    if goRight || goLeft {
      if goRight {
        direction := direction + 1;
      }
      if goLeft {
        direction := direction - 1;
      }
      return true, direction;
    }
    return false, direction;
  }

  // ---------------------------------------------------------------- visible buttons

  /** A culture is listed when it has no availability hook or its hook says yes. */
  predicate Shown(c: MoreLocalesCulture)
  {
    c.available.None? || c.available.value()
  }

  /** The indices `1 <= i < n` of shown cultures, in the order the loop visits them. */
  function VisibleIndices(cultures: seq<MoreLocalesCulture>, n: nat): (v: seq<nat>)
    requires n <= |cultures|
    ensures |v| < n || n == 0
    ensures forall k :: 0 <= k < |v| ==> 1 <= v[k] < n
  {
    if n <= 1 then []
    else VisibleIndices(cultures, n - 1) + (if Shown(cultures[n - 1]) then [n - 1] else [])
  }

  /** The visible list holds exactly the shown cultures past the dummy entry, each once, in
      ascending order. */
  lemma {:induction false} VisibleIndicesMeaning(cultures: seq<MoreLocalesCulture>, n: nat)
    requires n <= |cultures|
    ensures forall i :: i in VisibleIndices(cultures, n) <==> 1 <= i < n && Shown(cultures[i])
    ensures forall j, k :: 0 <= j < k < |VisibleIndices(cultures, n)| ==>
              VisibleIndices(cultures, n)[j] < VisibleIndices(cultures, n)[k]
  {
    if n > 1 {
      VisibleIndicesMeaning(cultures, n - 1);
    }
  }

  // ---------------------------------------------------------------- layout

  /** The cell of the `i`-th visible button: buttons fill a page row by row, `columns` to a
      row, and page `p` occupies the columns `p * columns` to `p * columns + columns - 1`. */
  function Cell(i: nat, columns: int, rows: int): (cell: (int, int))
    requires columns >= 1 && rows >= 1
  {
    (i % columns + (i / ItemsPerPage(columns, rows)) * columns, (i / columns) % rows)
  }

  /** A positive multiple of `d` is at least `d`. */
  lemma MulAtLeast(a: int, d: int)
    requires a >= 1 && d >= 1
    ensures a * d >= d
  {
    assert a * d == (a - 1) * d + d;
    assert (a - 1) * d >= 0;
  }

  /** Euclidean division is determined by its quotient-remainder decomposition. */
  lemma DivUnique(n: int, d: int, q: int, m: int)
    requires d >= 1 && n == q * d + m && 0 <= m < d
    ensures n / d == q && n % d == m
  {
    var q', m' := n / d, n % d;
    assert n == q' * d + m';
    assert (q - q') * d == m' - m;
    if q - q' >= 1 {
      MulAtLeast(q - q', d);
      assert false;
    }
    if q' - q >= 1 {
      MulAtLeast(q' - q, d);
      assert false;
    }
  }

  /** An index splits into its page, its row within the page and its column within the row. */
  lemma Decompose(i: nat, columns: int, rows: int)
    requires columns >= 1 && rows >= 1
    ensures ItemsPerPage(columns, rows) == columns * rows
    ensures i / (columns * rows) == (i / columns) / rows
    ensures i == (i / (columns * rows)) * (columns * rows) + ((i / columns) % rows) * columns + i % columns
  {
    MulAtLeast(rows, columns);
    var a, b := i % columns, i / columns;
    var q, s := b / rows, b % rows;
    assert i == b * columns + a;
    MulSplit(b, q, rows, s, columns);
    MulBelow(s, rows, columns);
    DivUnique(i, columns * rows, q, s * columns + a);
  }

  /** Distributing a quotient-remainder split over a further factor. */
  lemma MulSplit(b: int, q: int, rows: int, s: int, columns: int)
    requires b == q * rows + s
    ensures b * columns == q * (columns * rows) + s * columns
  {
  }

  /** A row below `rows` starts at least one row's width before the end of the page. */
  lemma MulBelow(s: int, rows: int, columns: int)
    requires 0 <= s < rows && columns >= 1
    ensures 0 <= s * columns && s * columns + columns <= columns * rows
  {
    if s >= 1 {
      MulAtLeast(s, columns);
    }
    MulAtLeast(rows - s, columns);
    assert (rows - s) * columns == columns * rows - s * columns;
  }

  /** Multiplying by a positive number keeps strict order. */
  lemma MulLessCancel(x: int, y: int, d: int)
    requires d >= 1 && x * d < y * d
    ensures x < y
  {
    if x > y {
      MulAtLeast(x - y, d);
    }
  }

  /** The cell lies inside the grid: its row is below `rows`, and its column lies in the band
      of the button's page `i / itemsPerPage`. */
  lemma CellInGrid(i: nat, columns: int, rows: int)
    requires columns >= 1 && rows >= 1
    ensures 0 <= Cell(i, columns, rows).1 < rows
    ensures Cell(i, columns, rows).0 / columns == i / ItemsPerPage(columns, rows)
    ensures Cell(i, columns, rows).0 % columns == i % columns
  {
    Decompose(i, columns, rows);
    var page := i / ItemsPerPage(columns, rows);
    assert page >= 0;
    DivUnique(Cell(i, columns, rows).0, columns, page, i % columns);
  }

  /** Distinct buttons get distinct cells. */
  lemma CellInjective(i: nat, j: nat, columns: int, rows: int)
    requires columns >= 1 && rows >= 1
    requires i != j
    ensures Cell(i, columns, rows) != Cell(j, columns, rows)
  {
    if Cell(i, columns, rows) == Cell(j, columns, rows) {
      CellInGrid(i, columns, rows);
      CellInGrid(j, columns, rows);
      Decompose(i, columns, rows);
      Decompose(j, columns, rows);
      assert false;
    }
  }

  /** Every visible button sits on a page the pager can reach: with `count` registry slots the
      `k`-th visible button is on a page below `maxPage`. */
  lemma VisibleButtonsReachable(cultures: seq<MoreLocalesCulture>, k: nat, columns: int, rows: int)
    requires columns >= 1 && rows >= 1
    requires k < |VisibleIndices(cultures, |cultures|)|
    ensures Cell(k, columns, rows).0 / columns < MaxPage(|cultures|, ItemsPerPage(columns, rows))
  {
    var ipp := ItemsPerPage(columns, rows);
    CellInGrid(k, columns, rows);
    MaxPageIsCeiling(|cultures|, ipp);
    var page := k / ipp;
    assert page * ipp <= k;
    MulLessCancel(page, MaxPage(|cultures|, ipp), ipp);
  }

  // ---------------------------------------------------------------- per-button state

  /** `ButtonDrawInfo` without its pixel, colour and texture caches: the cell stands for the
      cached draw position. */
  datatype ButtonDrawInfo = ButtonDrawInfo(currentDrawStepStatus: bool, column: int, row: int,
                                           buttonText: ButtonText, hovered: bool, interactable: bool)

  const DefaultDrawInfo := ButtonDrawInfo(false, 0, 0, NoButtonText, false, false)

  /** `ButtonActive(index)`: the culture in that slot is the active one. An empty slot has no
      culture to compare and throws. */
  function ButtonActive(cultures: seq<MoreLocalesCulture>, index: nat, active: GameCulture): (r: Result<bool, Exception>)
    requires index < |cultures|
    ensures r.Err? <==> cultures[index].culture.None?
    ensures r.Err? ==> r.error == NullReference
    ensures r.Ok? ==> (r.value <==> cultures[index].culture.value.legacyId == active.legacyId)
  {
    if cultures[index].culture.None? then Err(NullReference)
    else Ok(cultures[index].culture.value.legacyId == active.legacyId)
  }

  /** `decision ?? true`, where the decision is `true` without a panel hook and the hook's
      answer (`hook(index)`) otherwise: only a hook answering `false` suppresses the button's
      later passes. */
  function StepStatus(c: MoreLocalesCulture, hook: nat -> Option<bool>, index: nat): (status: bool)
    ensures !status <==> c.buttonDrawData.hijackPanelDraw.Some? && hook(index) == Some(false)
  {
    if c.buttonDrawData.hijackPanelDraw.None? then true
    else match hook(index)
      case None => true
      case Some(b) => b
  }

  /** The draw position the `k`-th visible button records before anything else. */
  function Positioned(info: ButtonDrawInfo, k: nat, columns: int, rows: int): ButtonDrawInfo
    requires columns >= 1 && rows >= 1
  {
    info.(column := Cell(k, columns, rows).0, row := Cell(k, columns, rows).1)
  }

  /** The first-pass update of the `k`-th visible button, whose slot holds a culture. */
  function Placed(info: ButtonDrawInfo, k: nat, index: nat, cultures: seq<MoreLocalesCulture>,
                  columns: int, rows: int, active: GameCulture, hook: nat -> Option<bool>): ButtonDrawInfo
    requires columns >= 1 && rows >= 1
    requires index < |cultures| && cultures[index].culture.Some?
  {
    Positioned(info, k, columns, rows).(
      interactable := cultures[index].culture.value.legacyId != active.legacyId,
      currentDrawStepStatus := StepStatus(cultures[index], hook, index))
  }

  /** The slots of `span` can be placed: they exist and hold a culture. */
  predicate Placeable(span: seq<nat>, k: nat, size: nat, cultures: seq<MoreLocalesCulture>)
  {
    k <= |span| &&
    forall j :: 0 <= j < k ==> span[j] < size && span[j] < |cultures| && cultures[span[j]].culture.Some?
  }

  /** The draw cache after the first pass has placed the first `k` visible buttons. */
  function PlaceAll(infos: seq<ButtonDrawInfo>, span: seq<nat>, k: nat, cultures: seq<MoreLocalesCulture>,
                    columns: int, rows: int, active: GameCulture, hook: nat -> Option<bool>): (r: seq<ButtonDrawInfo>)
    requires columns >= 1 && rows >= 1
    requires Placeable(span, k, |infos|, cultures)
    ensures |r| == |infos|
  {
    if k == 0 then infos
    else
      var prev := PlaceAll(infos, span, k - 1, cultures, columns, rows, active, hook);
      var index := span[k - 1];
      prev[index := Placed(prev[index], k - 1, index, cultures, columns, rows, active, hook)]
  }

  /** The position in `span` of the first visible button whose slot is empty, or `|span|`. */
  function FirstEmptySlot(span: seq<nat>, cultures: seq<MoreLocalesCulture>): (k: nat)
    requires forall j :: 0 <= j < |span| ==> span[j] < |cultures|
    ensures k <= |span|
    ensures forall j :: 0 <= j < k ==> cultures[span[j]].culture.Some?
    ensures k < |span| ==> cultures[span[k]].culture.None?
  {
    if |span| == 0 then 0
    else if cultures[span[0]].culture.None? then 0
    else 1 + FirstEmptySlot(span[1..], cultures)
  }

  /** The draw cache after the whole first pass: every button before the first empty slot
      is placed, and the button of that empty slot, if any, has recorded its draw position
      before the comparison with the active culture throws. */
  function FirstPass(infos: seq<ButtonDrawInfo>, span: seq<nat>, cultures: seq<MoreLocalesCulture>,
                     columns: int, rows: int, active: GameCulture, hook: nat -> Option<bool>): (r: seq<ButtonDrawInfo>)
    requires columns >= 1 && rows >= 1
    requires forall j :: 0 <= j < |span| ==> span[j] < |infos| && span[j] < |cultures|
    ensures |r| == |infos|
    ensures var stop := FirstEmptySlot(span, cultures);
            stop < |span| ==> r[span[stop]].column == Cell(stop, columns, rows).0
                              && r[span[stop]].row == Cell(stop, columns, rows).1
  {
    var stop := FirstEmptySlot(span, cultures);
    var placed := PlaceAll(infos, span, stop, cultures, columns, rows, active, hook);
    if stop < |span| then placed[span[stop] := Positioned(placed[span[stop]], stop, columns, rows)]
    else placed
  }

  /** When no index repeats, the first pass leaves each listed slot placed by its own position
      in the list and every other slot as it was. */
  lemma {:induction false} PlaceAllDistinct(infos: seq<ButtonDrawInfo>, span: seq<nat>, k: nat,
                                            cultures: seq<MoreLocalesCulture>, columns: int, rows: int,
                                            active: GameCulture, hook: nat -> Option<bool>)
    requires columns >= 1 && rows >= 1
    requires Placeable(span, k, |infos|, cultures)
    requires forall i, j :: 0 <= i < j < k ==> span[i] != span[j]
    ensures forall j :: 0 <= j < k ==>
              PlaceAll(infos, span, k, cultures, columns, rows, active, hook)[span[j]]
              == Placed(infos[span[j]], j, span[j], cultures, columns, rows, active, hook)
    ensures forall i :: 0 <= i < |infos| && i !in span[..k] ==>
              PlaceAll(infos, span, k, cultures, columns, rows, active, hook)[i] == infos[i]
  {
    if k > 0 {
      PlaceAllDistinct(infos, span, k - 1, cultures, columns, rows, active, hook);
      var prev := PlaceAll(infos, span, k - 1, cultures, columns, rows, active, hook);
      var index := span[k - 1];
      assert index !in span[..k - 1];
      assert prev[index] == infos[index];
      forall i | 0 <= i < |infos| && i !in span[..k]
        ensures PlaceAll(infos, span, k, cultures, columns, rows, active, hook)[i] == infos[i]
      {
        assert span[..k] == span[..k - 1] + [index];
      }
      forall j | 0 <= j < k - 1
        ensures PlaceAll(infos, span, k, cultures, columns, rows, active, hook)[span[j]]
                == Placed(infos[span[j]], j, span[j], cultures, columns, rows, active, hook)
      {
        assert span[j] != index;
      }
    }
  }

  /** The buttons a click activates: in list order, every hovered (`hit`) button that was
      marked interactable, provided the mouse button was just clicked. */
  function Activated(infos: seq<ButtonDrawInfo>, span: seq<nat>, hit: nat -> bool, click: bool): (a: seq<nat>)
    requires forall j :: 0 <= j < |span| ==> span[j] < |infos|
    ensures forall i :: i in a <==> i in span && hit(i) && infos[i].interactable && click
  {
    if |span| == 0 then []
    else
      var last := span[|span| - 1];
      Activated(infos, span[..|span| - 1], hit, click)
      + (if hit(last) && infos[last].interactable && click then [last] else [])
  }

  /** After a first pass over a list without repeats, a click never re-selects the active
      culture: every activated slot holds a culture with a different legacy id. */
  lemma ClickSelectsInactiveCulture(infos: seq<ButtonDrawInfo>, span: seq<nat>, cultures: seq<MoreLocalesCulture>,
                                    columns: int, rows: int, active: GameCulture, hook: nat -> Option<bool>,
                                    hit: nat -> bool, click: bool)
    requires columns >= 1 && rows >= 1
    requires Placeable(span, |span|, |infos|, cultures)
    requires forall i, j :: 0 <= i < j < |span| ==> span[i] != span[j]
    ensures forall i | i in Activated(PlaceAll(infos, span, |span|, cultures, columns, rows, active, hook), span, hit, click) ::
              i < |cultures| && cultures[i].culture.Some? && cultures[i].culture.value.legacyId != active.legacyId
  {
    PlaceAllDistinct(infos, span, |span|, cultures, columns, rows, active, hook);
    var placed := PlaceAll(infos, span, |span|, cultures, columns, rows, active, hook);
    forall i | i in Activated(placed, span, hit, click)
      ensures i < |cultures| && cultures[i].culture.Some? && cultures[i].culture.value.legacyId != active.legacyId
    {
      var j :| 0 <= j < |span| && span[j] == i;
      assert placed[i] == Placed(infos[i], j, i, cultures, columns, rows, active, hook);
    }
  }

  // ---------------------------------------------------------------- the menu

  /** The menu's static state: grid size, current page, the visible list (`null` before the
      first draw) and the per-slot draw cache (`null` before `InitArrays`). */
  class LanguageMenu {
    var columns: int
    var rows: int
    var currentPage: int
    var indices: Option<seq<nat>>
    var drawInfoCache: array?<ButtonDrawInfo>

    /** The grid has at least one cell, and the visible list only names slots of the cache. */
    ghost predicate Valid()
      reads this
    {
      columns >= 1 && rows >= 1 &&
      (indices.Some? ==> drawInfoCache != null &&
                         forall k :: 0 <= k < |indices.value| ==> indices.value[k] < drawInfoCache.Length)
    }

    /** The static initializers: a 2 x 5 grid on the first page. */
    constructor ()
      ensures Valid()
      ensures columns == 2 && rows == 5 && currentPage == 0
      ensures indices.None? && drawInfoCache == null
    {
      columns := 2;
      rows := 5;
      currentPage := 0;
      indices := None;
      drawInfoCache := null;
    }

    /** The grid fitted to the screen: each dimension is the number of buttons that fit,
        raised to at least 1. */
    method FitGrid(columnsThatFit: int, rowsThatFit: int)
      requires Valid()
      modifies this
      ensures Valid()
      ensures columns == (if columnsThatFit >= 1 then columnsThatFit else 1)
      ensures rows == (if rowsThatFit >= 1 then rowsThatFit else 1)
      ensures currentPage == old(currentPage) && indices == old(indices) && drawInfoCache == old(drawInfoCache)
    {
      columns := if columnsThatFit >= 1 then columnsThatFit else 1;
      rows := if rowsThatFit >= 1 then rowsThatFit else 1;
    }

    /** `InitArrays`: one cache record per registry slot; every slot but the dummy gets its
        button text. */
    method InitArrays(cultures: seq<MoreLocalesCulture>)
      requires Valid()
      requires indices.Some? ==> forall k :: 0 <= k < |indices.value| ==> indices.value[k] < |cultures|
      modifies this
      ensures Valid()
      ensures fresh(drawInfoCache) && drawInfoCache.Length == |cultures|
      ensures |cultures| > 0 ==> drawInfoCache[0] == DefaultDrawInfo
      ensures forall i :: 1 <= i < |cultures| ==>
                drawInfoCache[i] == DefaultDrawInfo.(buttonText := ButtonTextFor(cultures[i]))
      ensures columns == old(columns) && rows == old(rows) && currentPage == old(currentPage)
      ensures indices == old(indices)
    {
      var cache := new ButtonDrawInfo[|cultures|](_ => DefaultDrawInfo);
      var i := 1;
      while i < cache.Length
        modifies cache
        invariant 1 <= i
        invariant forall j :: 0 <= j < cache.Length && (j == 0 || j >= i) ==> cache[j] == DefaultDrawInfo
        invariant forall j :: 1 <= j < i && j < cache.Length ==>
                    cache[j] == DefaultDrawInfo.(buttonText := ButtonTextFor(cultures[j]))
      {
        cache[i] := cache[i].(buttonText := ButtonTextFor(cultures[i]));
        i := i + 1;
      }
      drawInfoCache := cache;
    }

    /** The paging step of `DrawTopLeft`. */
    method StepPage(count: nat, keyState: set<Key>, oldKeyState: set<Key>)
      requires Valid()
      modifies this
      ensures Valid()
      ensures var changed := JustPressed(keyState, oldKeyState, E) || JustPressed(keyState, oldKeyState, Q);
              var direction := (if JustPressed(keyState, oldKeyState, E) then 1 else 0)
                               - (if JustPressed(keyState, oldKeyState, Q) then 1 else 0);
              currentPage == PageStep(old(currentPage), changed, direction, MaxPage(count, ItemsPerPage(columns, rows)))
      ensures columns == old(columns) && rows == old(rows)
      ensures indices == old(indices) && drawInfoCache == old(drawInfoCache)
    {
      var itemsPerPage := ItemsPerPage(columns, rows);
      var maxPage := ((count - 1) + itemsPerPage - 1) / itemsPerPage;
      var changed, direction := PageChanged(keyState, oldKeyState);
      if changed {
        currentPage := currentPage + direction;
        if currentPage < 0 {
          currentPage := 0;
        } else if currentPage >= maxPage {
          currentPage := maxPage - 1;
        }
      }
      if currentPage >= maxPage {
        currentPage := maxPage - 1;
      }
    }

    /** The loop of the visible-list step: appends the shown cultures past the dummy entry
        to `list`. */
    static method AppendShown(list: seq<nat>, cultures: seq<MoreLocalesCulture>) returns (r: seq<nat>)
      ensures r == list + VisibleIndices(cultures, |cultures|)
    {
      r := list;
      if |cultures| <= 1 {
        return;
      }
      for i := 1 to |cultures|
        invariant r == list + VisibleIndices(cultures, i)
      {
        if Shown(cultures[i]) {
          r := r + [i];
        }
      }
    }

    /** The visible-list step of `DrawTopLeft`: the list is created if needed and the shown
        cultures are appended to it (it is emptied only by `HandleInteractions`). */
    method AppendVisible(cultures: seq<MoreLocalesCulture>)
      requires Valid()
      requires drawInfoCache != null && drawInfoCache.Length == |cultures|
      modifies this
      ensures Valid()
      ensures indices == Some((if old(indices).Some? then old(indices).value else [])
                              + VisibleIndices(cultures, |cultures|))
      ensures columns == old(columns) && rows == old(rows) && currentPage == old(currentPage)
      ensures drawInfoCache == old(drawInfoCache)
    {
      var list := if indices.Some? then indices.value else [];
      list := AppendShown(list, cultures);
      indices := Some(list);
    }

    /** The first pass of `DrawTopLeft` over the visible list: each button records its cell,
        then whether it is interactable (not the active culture) and whether its later passes
        run. An empty slot throws when compared with the active culture, after its cell is
        recorded, leaving the earlier buttons updated. */
    method PlaceButtons(cultures: seq<MoreLocalesCulture>, active: GameCulture, hook: nat -> Option<bool>)
      returns (r: Result<(), Exception>)
      requires Valid() && indices.Some?
      requires drawInfoCache.Length == |cultures|
      modifies drawInfoCache
      ensures r.Err? <==> FirstEmptySlot(indices.value, cultures) < |indices.value|
      ensures r.Err? ==> r.error == NullReference
      ensures drawInfoCache[..] == FirstPass(old(drawInfoCache[..]), indices.value, cultures, columns, rows, active, hook)
    {
      var span := indices.value;
      var stop := FirstEmptySlot(span, cultures);
      var k := 0;
      while k < |span|
        invariant k <= stop
        invariant drawInfoCache[..] == PlaceAll(old(drawInfoCache[..]), span, k, cultures, columns, rows, active, hook)
      {
        var index := span[k];
        var info := drawInfoCache[index];
        drawInfoCache[index] := info.(column := k % columns + (k / ItemsPerPage(columns, rows)) * columns,
                                      row := (k / columns) % rows);
        var isActive :- ButtonActive(cultures, index, active);
        drawInfoCache[index] := drawInfoCache[index].(interactable := !isActive,
                                                      currentDrawStepStatus := StepStatus(cultures[index], hook, index));
        k := k + 1;
      }
      r := Ok(());
    }

    /** The integer part of `DrawTopLeft`: page step, visible list, first pass. */
    method DrawTopLeft(cultures: seq<MoreLocalesCulture>, keyState: set<Key>, oldKeyState: set<Key>,
                       active: GameCulture, hook: nat -> Option<bool>) returns (r: Result<(), Exception>)
      requires Valid()
      requires drawInfoCache != null && drawInfoCache.Length == |cultures|
      modifies this, drawInfoCache
      ensures Valid()
      ensures var changed := JustPressed(keyState, oldKeyState, E) || JustPressed(keyState, oldKeyState, Q);
              var direction := (if JustPressed(keyState, oldKeyState, E) then 1 else 0)
                               - (if JustPressed(keyState, oldKeyState, Q) then 1 else 0);
              currentPage == PageStep(old(currentPage), changed, direction,
                                      MaxPage(|cultures|, ItemsPerPage(columns, rows)))
      ensures indices == Some((if old(indices).Some? then old(indices).value else [])
                              + VisibleIndices(cultures, |cultures|))
      ensures r.Err? <==> FirstEmptySlot(indices.value, cultures) < |indices.value|
      ensures r.Err? ==> r.error == NullReference
      ensures drawInfoCache[..] == FirstPass(old(drawInfoCache[..]), indices.value, cultures, columns, rows, active, hook)
      ensures columns == old(columns) && rows == old(rows) && drawInfoCache == old(drawInfoCache)
    {
      StepPage(|cultures|, keyState, oldKeyState);
      AppendVisible(cultures);
      r := PlaceButtons(cultures, active, hook);
    }

    /** The mouse-outside branch of `HandleInteractions`: every listed button loses its
        hover. */
    static method ClearHover(cache: array<ButtonDrawInfo>, span: seq<nat>)
      requires forall k :: 0 <= k < |span| ==> span[k] < cache.Length
      modifies cache
      ensures forall i :: 0 <= i < cache.Length ==>
                cache[i] == if i in span then old(cache[i]).(hovered := false) else old(cache[i])
    {
      for k := 0 to |span|
        invariant forall i :: 0 <= i < cache.Length ==>
                    cache[i] == if i in span[..k] then old(cache[i]).(hovered := false) else old(cache[i])
      {
        assert span[..k + 1] == span[..k] + [span[k]];
        cache[span[k]] := cache[span[k]].(hovered := false);
      }
      assert span[..|span|] == span;
    }

    /** The mouse-inside branch of `HandleInteractions`: each listed button is hovered exactly
        when the mouse is over it, and a click activates the hovered interactable ones. */
    static method HoverPass(cache: array<ButtonDrawInfo>, span: seq<nat>, hit: nat -> bool, click: bool)
      returns (activated: seq<nat>)
      requires forall k :: 0 <= k < |span| ==> span[k] < cache.Length
      modifies cache
      ensures activated == Activated(old(cache[..]), span, hit, click)
      ensures forall i :: 0 <= i < cache.Length ==>
                cache[i] == if i in span then old(cache[i]).(hovered := hit(i)) else old(cache[i])
    {
      activated := [];
      for k := 0 to |span|
        invariant forall i :: 0 <= i < cache.Length ==>
                    cache[i] == if i in span[..k] then old(cache[i]).(hovered := hit(i)) else old(cache[i])
        invariant activated == Activated(old(cache[..]), span[..k], hit, click)
      {
        var index := span[k];
        assert span[..k + 1] == span[..k] + [index];
        if !hit(index) {
          cache[index] := cache[index].(hovered := false);
          continue;
        }
        var interact := cache[index].interactable;
        cache[index] := cache[index].(hovered := true);
        if interact && click {
          activated := activated + [index];
        }
      }
      assert span[..|span|] == span;
    }

    /** `HandleInteractions`. Without a visible list nothing happens. With the mouse outside
        the container every listed button loses its hover. Otherwise each listed button is
        hovered exactly when the mouse is over it (`hit`), and a click activates, in list
        order, the hovered interactable ones; the returned slots are those whose culture is
        made the active language. Either way the list is emptied. */
    method HandleInteractions(containsMouse: bool, hit: nat -> bool, click: bool) returns (activated: seq<nat>)
      requires Valid()
      modifies this, drawInfoCache
      ensures drawInfoCache == old(drawInfoCache)
      ensures Valid()
      ensures old(indices).None? ==>
                (indices.None? && activated == [] &&
                 (drawInfoCache != null ==> drawInfoCache[..] == old(drawInfoCache[..])))
      ensures old(indices).Some? ==> indices == Some([])
      ensures old(indices).Some? && !containsMouse ==>
                (activated == [] &&
                 forall i :: 0 <= i < drawInfoCache.Length ==>
                   drawInfoCache[i] == if i in old(indices).value then old(drawInfoCache[i]).(hovered := false)
                                       else old(drawInfoCache[i]))
      ensures old(indices).Some? && containsMouse ==>
                (activated == Activated(old(drawInfoCache[..]), old(indices).value, hit, click) &&
                 forall i :: 0 <= i < drawInfoCache.Length ==>
                   drawInfoCache[i] == if i in old(indices).value then old(drawInfoCache[i]).(hovered := hit(i))
                                       else old(drawInfoCache[i]))
      ensures columns == old(columns) && rows == old(rows) && currentPage == old(currentPage)
    {
      activated := [];
      if indices.None? {
        return;
      }
      var span := indices.value;
      if !containsMouse {
        ClearHover(drawInfoCache, span);
        indices := Some([]);
        return;
      }
      activated := HoverPass(drawInfoCache, span, hit, click);
      indices := Some([]);
    }
  }
}
