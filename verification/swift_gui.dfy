/**
 * The registry (`SwiftGui`): a map from page number to page, plus the two
 * sticky numbering flags, with the operations that add, rename, fill and
 * remove pages.
 */
module Gui {

  import opened Common
  import opened Buttons
  import opened Pages
  import opened IntSets

  datatype Registry = Registry(pages: map<int, Page>, ascending: bool, descending: bool)

  /** Keys are exactly 1..N for N pages. */
  predicate Dense(pages: map<int, Page>)
  {
    pages.Keys == Range(|pages|)
  }

  /** Every page is stored under its own page number. */
  predicate NumbersMatchKeys(pages: map<int, Page>)
  {
    forall k :: k in pages ==> pages[k].number == k
  }

  predicate AllWellFormed(pages: map<int, Page>)
  {
    forall k :: k in pages ==> WellFormed(pages[k])
  }

  /** What every operation of the registry keeps. */
  predicate Valid(g: Registry)
  {
    NumbersMatchKeys(g.pages) && AllWellFormed(g.pages)
  }

  // ---------------------------------------------------------------------
  // Construction
  // ---------------------------------------------------------------------

  /** The no-argument constructor passes -1 rows, which is read as one row. */
  function EffectiveRows(rows: int): int
  {
    if rows == -1 then 1 else rows
  }

  /** `SwiftGui(numberOfPages, numberOfRows, pagesName)`. */
  function Create(numberOfPages: int, numberOfRows: int, name: string): (r: Result<Registry>)
    ensures r.Ok? <==> numberOfPages >= 0 && EffectiveRows(numberOfRows) > 0
    ensures numberOfPages < 0 ==> r == Err(NegativePageCount)
    ensures numberOfPages >= 0 && EffectiveRows(numberOfRows) <= 0 ==> r == Err(NonPositiveRowCount)
    ensures r.Ok? ==> Valid(r.value) && Dense(r.value.pages) && |r.value.pages| == numberOfPages
    ensures r.Ok? ==> !r.value.ascending && !r.value.descending
    ensures r.Ok? ==> forall k :: k in r.value.pages ==>
              r.value.pages[k].rows == EffectiveRows(numberOfRows) && r.value.pages[k].name == name
  {
    var rows := EffectiveRows(numberOfRows);
    if numberOfPages < 0 then Err(NegativePageCount)
    else if rows <= 0 then Err(NonPositiveRowCount)
    else
      var pages := map k | k in Range(numberOfPages) :: CreatePage(k, rows, name).value;
      assert pages.Keys == Range(numberOfPages);
      Ok(Registry(pages, false, false))
  }

  /** `SwiftGui()` builds an empty registry with neither flag set. */
  lemma EmptyConstructor()
    ensures Create(0, -1, "") == Ok(Registry(map[], false, false))
  {
  }

  /** `open`: shows page 1; the source dereferences a missing page 1. */
  function Open(g: Registry): (r: Result<int>)
    ensures r.Ok? <==> 1 in g.pages
    ensures r.Ok? ==> r.value == 1
    ensures r.Err? ==> r.error == MissingPage
  {
    if 1 in g.pages then Ok(1) else Err(MissingPage)
  }

  // ---------------------------------------------------------------------
  // Adding pages
  // ---------------------------------------------------------------------

  /**
   * A new page's title under the flags: ascending wins over descending;
   * `size` is the registry size with the page already in it.
   */
  function Numbered(p: Page, ascending: bool, descending: bool, size: int): (q: Page)
    ensures q.number == p.number && q.rows == p.rows && q.grid == p.grid
    ensures ascending ==> q.name == Suffixed(p.name, p.number)
    ensures !ascending && descending ==> q.name == Suffixed(p.name, size - p.number)
    ensures !ascending && !descending ==> q == p
  {
    if ascending then RenameAscending(p)
    else if descending then RenameDescending(p, size)
    else p
  }

  datatype Added = Added(gui: Registry, page: Page)

  /**
   * `addNewPage(numberOfRows, pageName)`: the new page goes under key
   * size + 1 and is renamed if a numbering flag is set.
   */
  function AddNewPage(g: Registry, rows: int, name: string): (r: Result<Added>)
    ensures r.Ok? <==> rows > 0
    ensures r.Err? ==> r.error == NonPositiveRowCount
    ensures r.Ok? ==> r.value.gui.pages.Keys == g.pages.Keys + {|g.pages| + 1}
    ensures r.Ok? ==> r.value.gui.pages[|g.pages| + 1] == r.value.page
    ensures r.Ok? ==> forall k :: k in g.pages && k != |g.pages| + 1 ==> r.value.gui.pages[k] == g.pages[k]
    ensures r.Ok? ==> r.value.gui.ascending == g.ascending && r.value.gui.descending == g.descending
    ensures r.Ok? ==> r.value.page.number == |g.pages| + 1 && r.value.page.rows == rows
    ensures r.Ok? ==> WellFormed(r.value.page)
    ensures r.Ok? ==> forall i :: 0 <= i < |r.value.page.grid| ==> r.value.page.grid[i] == None
    ensures r.Ok? && g.ascending ==> r.value.page.name == Suffixed(name, |g.pages| + 1)
    ensures r.Ok? && !g.ascending && g.descending ==>
              r.value.page.name == Suffixed(name, |r.value.gui.pages| - (|g.pages| + 1))
    ensures r.Ok? && !g.ascending && !g.descending ==> r.value.page.name == name
  {
    if rows <= 0 then Err(NonPositiveRowCount)
    else
      var n := |g.pages| + 1;
      var blank := CreatePage(n, rows, name).value;
      var p := Numbered(blank, g.ascending, g.descending, |g.pages[n := blank]|);
      Ok(Added(g.(pages := g.pages[n := p]), p))
  }

  /** Dense keys 1..N with key N + 1 added are dense keys 1..N+1. */
  lemma DenseExtend(before: map<int, Page>, after: map<int, Page>)
    requires Dense(before) && after.Keys == before.Keys + {|before| + 1}
    ensures Dense(after) && |after| == |before| + 1
  {
    assert after.Keys == Range(|before| + 1);
  }

  /** On dense keys 1..N, adding a page gives dense keys 1..N+1. */
  lemma AddNewPageKeepsDense(g: Registry, rows: int, name: string)
    ensures rows > 0 && Dense(g.pages) ==>
              Dense(AddNewPage(g, rows, name).value.gui.pages) &&
              |AddNewPage(g, rows, name).value.gui.pages| == |g.pages| + 1
  {
    if rows > 0 && Dense(g.pages) {
      DenseExtend(g.pages, AddNewPage(g, rows, name).value.gui.pages);
    }
  }

  /** Adding a page keeps every page under its own number and well formed. */
  lemma AddNewPageKeepsValid(g: Registry, rows: int, name: string)
    requires Valid(g) && rows > 0
    ensures Valid(AddNewPage(g, rows, name).value.gui)
  {
  }

  /**
   * When key size + 1 is already taken (keys are no longer dense), the new
   * page replaces the page stored there and the registry does not grow.
   */
  lemma AddNewPageOverwritesTakenKey(g: Registry, rows: int, name: string)
    requires rows > 0 && |g.pages| + 1 in g.pages
    ensures AddNewPage(g, rows, name).Ok?
    ensures AddNewPage(g, rows, name).value.gui.pages.Keys == g.pages.Keys
    ensures |AddNewPage(g, rows, name).value.gui.pages| == |g.pages|
  {
    var after := AddNewPage(g, rows, name).value.gui.pages;
    assert after.Keys == g.pages.Keys;
  }

  datatype AddedMany = AddedMany(gui: Registry, pages: seq<Page>)

  /** `count` repetitions of `addNewPage`, collecting the pages in creation order. */
  function AddPages(g: Registry, count: nat, rows: int, name: string): (r: AddedMany)
    requires rows > 0
    ensures |r.pages| == count
    ensures r.gui.ascending == g.ascending && r.gui.descending == g.descending
    ensures forall i :: 0 <= i < count ==> WellFormed(r.pages[i]) && r.pages[i].rows == rows
    ensures Dense(g.pages) ==> Dense(r.gui.pages) && |r.gui.pages| == |g.pages| + count
    decreases count
  {
    if count == 0 then AddedMany(g, [])
    else
      var prev := AddPages(g, count - 1, rows, name);
      AddNewPageKeepsDense(prev.gui, rows, name);
      var a := AddNewPage(prev.gui, rows, name).value;
      AddedMany(a.gui, prev.pages + [a.page])
  }

  /**
   * One more page on dense keys: the `count`-th page goes under the next
   * key, is the last page collected and leaves the earlier pages alone.
   */
  lemma AddPagesStep(g: Registry, count: nat, rows: int, name: string)
    requires rows > 0 && count > 0 && Dense(AddPages(g, count - 1, rows, name).gui.pages)
    ensures var prev := AddPages(g, count - 1, rows, name);
      var r := AddPages(g, count, rows, name);
      && Dense(r.gui.pages) && |r.gui.pages| == |prev.gui.pages| + 1
      && r.pages == prev.pages + [r.pages[count - 1]]
      && r.pages[count - 1].number == |prev.gui.pages| + 1
      && |prev.gui.pages| + 1 in r.gui.pages && r.gui.pages[|prev.gui.pages| + 1] == r.pages[count - 1]
      && (forall k :: k in prev.gui.pages ==> k in r.gui.pages && r.gui.pages[k] == prev.gui.pages[k])
  {
    var prev := AddPages(g, count - 1, rows, name);
    AddNewPageKeepsDense(prev.gui, rows, name);
    assert |prev.gui.pages| + 1 !in prev.gui.pages;
  }

  /** On dense keys 1..N, the i-th of the `count` added pages is page N+1+i, stored under its number. */
  lemma {:induction false} AddPagesNumbersInOrder(g: Registry, count: nat, rows: int, name: string, i: nat)
    requires rows > 0 && Dense(g.pages) && i < count
    ensures var r := AddPages(g, count, rows, name);
      r.pages[i].number == |g.pages| + 1 + i &&
      |g.pages| + 1 + i in r.gui.pages && r.gui.pages[|g.pages| + 1 + i] == r.pages[i]
    decreases count
  {
    var prev := AddPages(g, count - 1, rows, name);
    var r := AddPages(g, count, rows, name);
    AddPagesStep(g, count, rows, name);
    var key := |g.pages| + 1 + i;
    if i < count - 1 {
      AddPagesNumbersInOrder(g, count - 1, rows, name, i);
      assert r.pages[i] == prev.pages[i];
      assert key in prev.gui.pages;
    } else {
      assert i == count - 1 && key == |prev.gui.pages| + 1;
      assert r.pages[i].number == key;
    }
  }

  /** On dense keys, adding pages leaves every existing page under its key. */
  lemma {:induction false} AddPagesKeepsOld(g: Registry, count: nat, rows: int, name: string, k: int)
    requires rows > 0 && Dense(g.pages) && k in g.pages
    ensures k in AddPages(g, count, rows, name).gui.pages
    ensures AddPages(g, count, rows, name).gui.pages[k] == g.pages[k]
    decreases count
  {
    if count > 0 {
      AddPagesKeepsOld(g, count - 1, rows, name, k);
        AddPagesStep(g, count, rows, name);
    }
  }

  /** Every round of `addNewPages` keeps the registry valid. */
  lemma {:induction false} AddPagesKeepsValid(g: Registry, count: nat, rows: int, name: string)
    requires Valid(g) && rows > 0
    ensures Valid(AddPages(g, count, rows, name).gui)
    decreases count
  {
    if count > 0 {
      AddPagesKeepsValid(g, count - 1, rows, name);
      AddNewPageKeepsValid(AddPages(g, count - 1, rows, name).gui, rows, name);
    }
  }

  /** `addNewPages(numberOfPages, numberOfRows, pagesName)`. */
  function AddNewPages(g: Registry, count: int, rows: int, name: string): (r: Result<AddedMany>)
    ensures r.Ok? <==> count >= 0 && rows > 0
    ensures count < 0 ==> r == Err(NegativePageCount)
    ensures count >= 0 && rows <= 0 ==> r == Err(NonPositiveRowCount)
    ensures r.Ok? ==> |r.value.pages| == count
    ensures r.Ok? ==> forall i :: 0 <= i < count ==> r.value.pages[i].rows == rows && WellFormed(r.value.pages[i])
    ensures r.Ok? && Dense(g.pages) ==> Dense(r.value.gui.pages) && |r.value.gui.pages| == |g.pages| + count
  {
    if count < 0 then Err(NegativePageCount)
    else if rows <= 0 then Err(NonPositiveRowCount)
    else Ok(AddPages(g, count, rows, name))
  }

  // ---------------------------------------------------------------------
  // Numbering every page
  // ---------------------------------------------------------------------

  /** `numberAscendingOrderAll`: set the flag, append each page's number to its title once. */
  function NumberAscendingAll(g: Registry): (r: Registry)
    ensures r.ascending && r.descending == g.descending
    ensures r.pages.Keys == g.pages.Keys
    ensures forall k :: k in g.pages ==>
              r.pages[k].number == g.pages[k].number && r.pages[k].rows == g.pages[k].rows &&
              r.pages[k].grid == g.pages[k].grid &&
              r.pages[k].name == Suffixed(g.pages[k].name, g.pages[k].number)
  {
    g.(ascending := true, pages := map k | k in g.pages :: RenameAscending(g.pages[k]))
  }

  /** `numberDescendingOrderAll`: set the flag, append size minus each page's number once. */
  function NumberDescendingAll(g: Registry): (r: Registry)
    ensures r.descending && r.ascending == g.ascending
    ensures r.pages.Keys == g.pages.Keys
    ensures forall k :: k in g.pages ==>
              r.pages[k].number == g.pages[k].number && r.pages[k].rows == g.pages[k].rows &&
              r.pages[k].grid == g.pages[k].grid &&
              r.pages[k].name == Suffixed(g.pages[k].name, |g.pages| - g.pages[k].number)
  {
    g.(descending := true, pages := map k | k in g.pages :: RenameDescending(g.pages[k], |g.pages|))
  }

  /**
   * Pages that shared one title before ascending numbering have pairwise
   * different titles after it, so a title identifies its page.
   */
  lemma AscendingTitlesDistinct(g: Registry, a: int, b: int)
    requires Valid(g) && a in g.pages && b in g.pages && a != b
    requires g.pages[a].name == g.pages[b].name
    ensures NumberAscendingAll(g).pages[a].name != NumberAscendingAll(g).pages[b].name
  {
    SuffixInjective(g.pages[a].name, a, b);
  }

  /** The same for descending numbering. */
  lemma DescendingTitlesDistinct(g: Registry, a: int, b: int)
    requires Valid(g) && a in g.pages && b in g.pages && a != b
    requires g.pages[a].name == g.pages[b].name
    ensures NumberDescendingAll(g).pages[a].name != NumberDescendingAll(g).pages[b].name
  {
    SuffixInjective(g.pages[a].name, |g.pages| - a, |g.pages| - b);
  }

  lemma NumberingKeepsValid(g: Registry)
    requires Valid(g)
    ensures Valid(NumberAscendingAll(g)) && Valid(NumberDescendingAll(g))
  {
  }

  // ---------------------------------------------------------------------
  // Fan-out of a page operation to every page
  // ---------------------------------------------------------------------

  /** `order` lists keys of `pages`, each at most once. */
  predicate Lists(order: seq<int>, pages: map<int, Page>)
  {
    && (forall i :: 0 <= i < |order| ==> order[i] in pages)
    && (forall i, j :: 0 <= i < j < |order| ==> order[i] != order[j])
  }

  /** The iteration order of the map's entries: every key exactly once. */
  predicate IsOrderOf(order: seq<int>, pages: map<int, Page>)
  {
    Lists(order, pages) && forall k :: k in pages ==> k in order
  }

  /** Position of the first page in `order` that `f` refuses, or |order| if none. */
  function FirstFailure(pages: map<int, Page>, order: seq<int>, f: Page -> Result<Page>): (j: nat)
    requires Lists(order, pages)
    ensures j <= |order|
    ensures forall i :: 0 <= i < j ==> f(pages[order[i]]).Ok?
    ensures j < |order| ==> f(pages[order[j]]).Err?
    decreases |order|
  {
    if |order| == 0 then 0
    else if f(pages[order[0]]).Err? then 0
    else 1 + FirstFailure(pages, order[1..], f)
  }

  datatype FanOut = FanOut(pages: map<int, Page>, failure: Option<Error>)

  /**
   * Apply `f` to the pages in `order`. The first refusal stops the loop:
   * pages visited before it keep their change, the rest stay as they were,
   * and the refusal is reported.
   */
  function ForEachPage(pages: map<int, Page>, order: seq<int>, f: Page -> Result<Page>): (r: FanOut)
    requires Lists(order, pages)
    ensures r.pages.Keys == pages.Keys
    ensures forall k :: k in pages && k !in order ==> r.pages[k] == pages[k]
    ensures var j := FirstFailure(pages, order, f);
              forall i :: 0 <= i < |order| ==>
                r.pages[order[i]] == (if i < j then f(pages[order[i]]).value else pages[order[i]])
    ensures var j := FirstFailure(pages, order, f);
              r.failure == (if j < |order| then Some(f(pages[order[j]]).error) else None)
    decreases |order|
  {
    if |order| == 0 then FanOut(pages, None)
    else
      var k := order[0];
      match f(pages[k])
      case Err(e) => FanOut(pages, Some(e))
      case Ok(q) =>
        var rest := ForEachPage(pages, order[1..], f);
        assert forall i :: 1 <= i < |order| ==> order[i] == order[1..][i - 1] && order[i] != k;
        assert FirstFailure(pages, order, f) == 1 + FirstFailure(pages, order[1..], f);
        FanOut(rest.pages[k := q], rest.failure)
  }

  /** Over a full iteration order: no refusal exactly when every page accepts, and then every page is changed. */
  lemma ForEachPageAll(pages: map<int, Page>, order: seq<int>, f: Page -> Result<Page>)
    requires IsOrderOf(order, pages)
    ensures ForEachPage(pages, order, f).failure.None? <==> forall k :: k in pages ==> f(pages[k]).Ok?
    ensures ForEachPage(pages, order, f).failure.None? ==>
              forall k :: k in pages ==> ForEachPage(pages, order, f).pages[k] == f(pages[k]).value
  {
    var j := FirstFailure(pages, order, f);
    if j < |order| {
      var k := order[j];
      assert k in pages && f(pages[k]).Err?;
    } else {
      forall k | k in pages
        ensures f(pages[k]).Ok?
      {
        var i :| 0 <= i < |order| && order[i] == k;
      }
    }
  }

  /**
   * Whether the loop stops early or not, every page is either left as it
   * was or replaced by what `f` made of it.
   */
  lemma ForEachPageUntouchedOrChanged(pages: map<int, Page>, order: seq<int>, f: Page -> Result<Page>)
    requires Lists(order, pages)
    ensures var r := ForEachPage(pages, order, f);
      forall k :: k in pages ==>
        r.pages[k] == pages[k] || (f(pages[k]).Ok? && r.pages[k] == f(pages[k]).value)
  {
    var r := ForEachPage(pages, order, f);
    var j := FirstFailure(pages, order, f);
    forall k | k in pages
      ensures r.pages[k] == pages[k] || (f(pages[k]).Ok? && r.pages[k] == f(pages[k]).value)
    {
      if i :| 0 <= i < |order| && order[i] == k {
        assert r.pages[order[i]] == (if i < j then f(pages[order[i]]).value else pages[order[i]]);
      }
    }
  }

  /** `f` keeps the number, row count and grid size of every well-formed page it accepts. */
  ghost predicate KeepsShape(f: Page -> Result<Page>)
  {
    forall p :: WellFormed(p) && f(p).Ok? ==>
      f(p).value.number == p.number && f(p).value.rows == p.rows && |f(p).value.grid| == |p.grid|
  }

  /** A shape-keeping operation fanned out keeps the map valid, even when the loop stops early. */
  lemma ForEachPageKeepsValid(pages: map<int, Page>, order: seq<int>, f: Page -> Result<Page>)
    requires Lists(order, pages) && NumbersMatchKeys(pages) && AllWellFormed(pages)
    requires KeepsShape(f)
    ensures NumbersMatchKeys(ForEachPage(pages, order, f).pages)
    ensures AllWellFormed(ForEachPage(pages, order, f).pages)
  {
    ForEachPageUntouchedOrChanged(pages, order, f);
  }

  datatype Outcome = Outcome(gui: Registry, failure: Option<Error>)

  /** A page operation applied through the fan-out to the whole registry. */
  function ApplyAll(g: Registry, order: seq<int>, f: Page -> Result<Page>): (r: Outcome)
    requires IsOrderOf(order, g.pages)
    ensures r.gui.pages.Keys == g.pages.Keys
    ensures r.gui.ascending == g.ascending && r.gui.descending == g.descending
    ensures r.failure.None? <==> forall k :: k in g.pages ==> f(g.pages[k]).Ok?
    ensures r.failure.None? ==> forall k :: k in g.pages ==> r.gui.pages[k] == f(g.pages[k]).value
    ensures r.failure.Some? ==> exists k :: k in g.pages && f(g.pages[k]) == Err(r.failure.value)
    ensures forall k :: k in g.pages ==>
              r.gui.pages[k] == g.pages[k] || (f(g.pages[k]).Ok? && r.gui.pages[k] == f(g.pages[k]).value)
  {
    ForEachPageAll(g.pages, order, f);
    ForEachPageUntouchedOrChanged(g.pages, order, f);
    var fo := ForEachPage(g.pages, order, f);
    Outcome(g.(pages := fo.pages), fo.failure)
  }

  function PageOf(r: Result<Placement>): Result<Page>
  {
    match r
    case Ok(pl) => Ok(pl.page)
    case Err(e) => Err(e)
  }

  /**
   * `addBackButtonAll`, `addForwardButtonAll`, `addNewPageButtonAll` and
   * `addDeletePageButtonAll`, with or without an index.
   */
  function AddNavButtonAll(g: Registry, order: seq<int>, nav: Nav, slot: Slot): (r: Outcome)
    requires IsOrderOf(order, g.pages)
    ensures r.gui.pages.Keys == g.pages.Keys
    ensures r.gui.ascending == g.ascending && r.gui.descending == g.descending
    ensures r.failure.None? <==> forall k :: k in g.pages ==> InGrid(g.pages[k], SlotIndex(g.pages[k], nav, slot))
    ensures r.failure.Some? ==> r.failure.value == SlotOutOfRange
    ensures r.failure.None? ==> forall k :: k in g.pages ==>
              WritesOneCell(g.pages[k], r.gui.pages[k], SlotIndex(g.pages[k], nav, slot), NavMaterial(nav))
    ensures AllWellFormed(g.pages) && slot.Default? ==> r.failure.None?
  {
    ApplyAll(g, order, p => PageOf(AddNavButton(p, nav, slot)))
  }

  /** `addCustomButtonAll(customButton, index)`. */
  function AddCustomButtonAll(g: Registry, order: seq<int>, b: Button, index: int): (r: Outcome)
    requires IsOrderOf(order, g.pages)
    ensures r.gui.pages.Keys == g.pages.Keys
    ensures r.gui.ascending == g.ascending && r.gui.descending == g.descending
    ensures r.failure.None? <==> forall k :: k in g.pages ==> InGrid(g.pages[k], index)
    ensures r.failure.Some? ==> r.failure.value == SlotOutOfRange
    ensures r.failure.None? ==> forall k :: k in g.pages ==>
              WritesOneCell(g.pages[k], r.gui.pages[k], index, b.material)
  {
    ApplyAll(g, order, p => PageOf(AddCustomButtonAt(p, b, index)))
  }

  /** `fillBorderAll(borderPattern, fillMaterial)`. */
  function FillBorderAll(g: Registry, order: seq<int>, pattern: seq<seq<int>>, m: Material): (r: Outcome)
    requires IsOrderOf(order, g.pages) && AllWellFormed(g.pages)
    ensures r.gui.pages.Keys == g.pages.Keys
    ensures r.gui.ascending == g.ascending && r.gui.descending == g.descending
    ensures r.failure.None? <==> forall k :: k in g.pages ==> g.pages[k].rows == |pattern| && NineWide(pattern)
    ensures r.failure.None? ==> forall k :: k in g.pages ==> r.gui.pages[k] == FillBorder(g.pages[k], pattern, m).value
  {
    ApplyAll(g, order, p => if WellFormed(p) then FillBorder(p, pattern, m) else Err(PatternRowMismatch))
  }

  /** A shape-keeping operation applied to every page keeps the registry valid, whatever the failure. */
  lemma ApplyAllKeepsValid(g: Registry, order: seq<int>, f: Page -> Result<Page>)
    requires IsOrderOf(order, g.pages) && Valid(g) && KeepsShape(f)
    ensures Valid(ApplyAll(g, order, f).gui)
  {
    ForEachPageKeepsValid(g.pages, order, f);
  }

  /** Placing a navigation button on every page keeps the registry valid, even when a page refuses. */
  lemma AddNavButtonAllKeepsValid(g: Registry, order: seq<int>, nav: Nav, slot: Slot)
    requires IsOrderOf(order, g.pages) && Valid(g)
    ensures Valid(AddNavButtonAll(g, order, nav, slot).gui)
  {
    ApplyAllKeepsValid(g, order, p => PageOf(AddNavButton(p, nav, slot)));
  }

  /** Placing a caller-defined button on every page keeps the registry valid, even when a page refuses. */
  lemma AddCustomButtonAllKeepsValid(g: Registry, order: seq<int>, b: Button, index: int)
    requires IsOrderOf(order, g.pages) && Valid(g)
    ensures Valid(AddCustomButtonAll(g, order, b, index).gui)
  {
    ApplyAllKeepsValid(g, order, p => PageOf(AddCustomButtonAt(p, b, index)));
  }

  /** Filling the border of every page keeps the registry valid, even when a page refuses. */
  lemma FillBorderAllKeepsValid(g: Registry, order: seq<int>, pattern: seq<seq<int>>, m: Material)
    requires IsOrderOf(order, g.pages) && Valid(g)
    ensures Valid(FillBorderAll(g, order, pattern, m).gui)
  {
    ApplyAllKeepsValid(g, order, p => if WellFormed(p) then FillBorder(p, pattern, m) else Err(PatternRowMismatch));
  }

  // ---------------------------------------------------------------------
  // Deleting a page
  // ---------------------------------------------------------------------

  /** The page a numbered deletion of `d` leaves under key `j`. */
  function Moved(g: Registry, d: int, j: int, size: int): Page
    requires (j + 1 in g.pages && j + 1 < d) || (j in g.pages && j > d)
  {
    if j > d then g.pages[j]
    else Numbered(g.pages[j + 1].(number := j), g.ascending, g.descending, size)
  }

  /** The pages left by a numbered deletion of `d`, each renumbered to its new key and renamed if it moved. */
  function Renumbered(g: Registry, d: int): (m: map<int, Page>)
    ensures forall j {:trigger j in m} :: j in m <==> (j + 1 in g.pages && j + 1 < d) || (j in g.pages && j > d)
  {
    var keys := RenumberedKeys(g.pages.Keys, d);
    var m := map j | j in keys :: Moved(g, d, j, |g.pages - {d}|);
    assert forall j :: j in m <==> j in keys;
    m
  }

  /**
   * `DeletePageButton.onClick` on the registry: remove key `d`; with a
   * numbering flag set, move every key below `d` one place down, set its
   * page number to the new key and rename it. Keys above `d` stay. In the
   * numbered case the page now under key `j < d` is the one that was under
   * `j + 1`.
   */
  function RemovePage(g: Registry, d: int): (r: Registry)
    ensures r.ascending == g.ascending && r.descending == g.descending
    ensures d !in r.pages
    ensures !g.ascending && !g.descending ==> r.pages == g.pages - {d}
    ensures g.ascending || g.descending ==> forall j {:trigger j in r.pages} :: j in r.pages <==>
              (j + 1 in g.pages && j + 1 < d) || (j in g.pages && j > d)
  {
    if g.ascending || g.descending then g.(pages := Renumbered(g, d))
    else g.(pages := g.pages - {d})
  }

  /** With a numbering flag set, the keys left are exactly the closed-up keys of the old registry. */
  lemma DeleteKeys(g: Registry, d: int)
    requires g.ascending || g.descending
    ensures RemovePage(g, d).pages.Keys == RenumberedKeys(g.pages.Keys, d)
  {
    var r := RemovePage(g, d);
    assert forall j :: j in r.pages.Keys <==> j in RenumberedKeys(g.pages.Keys, d);
  }

  /** Deleting a present page leaves one page fewer, deleting an absent one changes no count. */
  lemma DeleteSize(g: Registry, d: int)
    ensures d in g.pages ==> |RemovePage(g, d).pages| == |g.pages| - 1
    ensures d !in g.pages ==> |RemovePage(g, d).pages| == |g.pages|
  {
    if g.ascending || g.descending {
      RenumberedKeysSize(g.pages.Keys, d);
      DeleteKeys(g, d);
    }
  }

  /** With a numbering flag set, a page above the deleted one keeps its key, number and title. */
  lemma DeleteKeepsPagesAbove(g: Registry, d: int, k: int)
    requires g.ascending || g.descending
    requires k in g.pages && k > d
    ensures k in RemovePage(g, d).pages && RemovePage(g, d).pages[k] == g.pages[k]
  {
    assert k in Renumbered(g, d);
  }

  /**
   * With a numbering flag set, the page under key `k < d` moves to key
   * `k - 1`, takes number `k - 1` and gets one more suffix: the new number
   * when ascending, otherwise the new size minus the new number.
   */
  lemma DeleteShiftsPagesBelow(g: Registry, d: int, k: int)
    requires g.ascending || g.descending
    requires k in g.pages && k < d
    ensures var r := RemovePage(g, d).pages;
      && k - 1 in r
      && r[k - 1].number == k - 1
      && r[k - 1].rows == g.pages[k].rows
      && r[k - 1].grid == g.pages[k].grid
      && (g.ascending ==> r[k - 1].name == Suffixed(g.pages[k].name, k - 1))
      && (!g.ascending ==> r[k - 1].name == Suffixed(g.pages[k].name, |g.pages - {d}| - (k - 1)))
  {
    var j := k - 1;
    assert j + 1 == k;
    assert j in Renumbered(g, d);
  }

  /** With a numbering flag set, each page left by a deletion sits under its own number and is well formed. */
  lemma DeleteKeepsPageValid(g: Registry, d: int, j: int)
    requires Valid(g) && (g.ascending || g.descending)
    requires j in RemovePage(g, d).pages
    ensures RemovePage(g, d).pages[j].number == j && WellFormed(RemovePage(g, d).pages[j])
  {
    if j < d {
      DeleteShiftsPagesBelow(g, d, j + 1);
    } else {
      DeleteKeepsPagesAbove(g, d, j);
    }
  }

  /** Deletion keeps every page under its own number and well formed. */
  lemma DeleteKeepsValid(g: Registry, d: int)
    requires Valid(g)
    ensures Valid(RemovePage(g, d))
  {
    var r := RemovePage(g, d);
    if g.ascending || g.descending {
      forall j | j in r.pages
        ensures r.pages[j].number == j && WellFormed(r.pages[j])
      {
        DeleteKeepsPageValid(g, d, j);
      }
      assert NumbersMatchKeys(r.pages);
      assert AllWellFormed(r.pages);
    }
  }

  /**
   * With a numbering flag set, deleting any page above page 1 moves page 1
   * to key and number 0, a number the page constructor refuses.
   */
  lemma DeleteMovesFirstPageToZero(g: Registry, d: int)
    requires g.ascending || g.descending
    requires 1 in g.pages && d > 1
    ensures 0 in RemovePage(g, d).pages && RemovePage(g, d).pages[0].number == 0
    ensures CreatePage(RemovePage(g, d).pages[0].number, 1, "").Err?
  {
    DeleteShiftsPagesBelow(g, d, 1);
  }

  /** Without numbering, a page above the deleted one keeps its key, so keys stop being dense. */
  lemma PlainDeleteLeavesGap(g: Registry, d: int)
    requires !g.ascending && !g.descending
    requires Dense(g.pages) && 1 <= d < |g.pages|
    ensures !Dense(RemovePage(g, d).pages)
  {
    var r := RemovePage(g, d);
    assert |g.pages| in r.pages;
  }

  // ---------------------------------------------------------------------
  // Worked scenarios
  // ---------------------------------------------------------------------

  /**
   * An empty registry, two three-row "Shop" pages added, page 1 deleted
   * with no numbering: only key 2 is left and its page is still number 2.
   */
  lemma ShopScenario()
    ensures var g0 := Create(0, -1, "").value;
      var g1 := AddNewPage(g0, 3, "Shop").value.gui;
      var g2 := AddNewPage(g1, 3, "Shop").value.gui;
      var r := RemovePage(g2, 1);
      r.pages.Keys == {2} && r.pages[2].number == 2 && r.pages[2].name == "Shop"
  {
    EmptyConstructor();
    var g0 := Create(0, -1, "").value;
    var g1 := AddNewPage(g0, 3, "Shop").value.gui;
    assert g1.pages.Keys == {1};
    var g2 := AddNewPage(g1, 3, "Shop").value.gui;
    assert g2.pages.Keys == {1, 2};
    assert (g2.pages - {1}).Keys == {2};
  }

  /** Three one-row "Menu" pages, numbered ascending. */
  function ThreeMenuPages(): (g: Registry)
    ensures Valid(g) && g.ascending && g.pages.Keys == {1, 2, 3}
    ensures g.pages[1].name == Suffixed("Menu", 1) && g.pages[3].name == Suffixed("Menu", 3)
  {
    var c := Create(3, 1, "Menu").value;
    assert 1 in Range(3) && 2 in Range(3) && 3 in Range(3);
    assert forall k :: k in c.pages.Keys <==> k in {1, 2, 3};
    assert c.pages.Keys == {1, 2, 3};
    NumberingKeepsValid(c);
    NumberAscendingAll(c)
  }

  /**
   * Page 2 deleted from three numbered "Menu" pages (as `ThreeMenuPages`
   * builds them): page 1 moves to key and number 0 with a second suffix,
   * and page 3 keeps key 3 and its title.
   */
  lemma MenuScenario(g: Registry)
    requires Valid(g) && g.ascending && g.pages.Keys == {1, 2, 3}
    requires g.pages[1].name == Suffixed("Menu", 1) && g.pages[3].name == Suffixed("Menu", 3)
    ensures var r := RemovePage(g, 2);
      && r.pages.Keys == {0, 3}
      && r.pages[0].number == 0 && r.pages[0].name == Suffixed(Suffixed("Menu", 1), 0)
      && r.pages[3].number == 3 && r.pages[3].name == Suffixed("Menu", 3)
  {
    DeleteKeys(g, 2);
    ClosingMiddleOfThree();
    DeleteShiftsPagesBelow(g, 2, 1);
    DeleteKeepsPagesAbove(g, 2, 3);
  }
}
