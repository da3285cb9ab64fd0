/**
 * A page of a menu: its number, its row count, its title and the grid of
 * `rows * 9` slots its inventory shows. The Bukkit inventory is reduced to
 * that grid; a slot is empty (`None`) or shows one material.
 */
module Pages {

  import opened Common
  import opened Buttons
  import Decimal

  /** Slots per row of a chest inventory. */
  const Width := 9

  type Cell = Option<Material>

  datatype Page = Page(number: int, rows: int, name: string, grid: seq<Cell>)

  /** The shape the constructor gives every page: positive rows, nine slots per row. */
  predicate WellFormed(p: Page)
  {
    p.rows > 0 && |p.grid| == p.rows * Width
  }

  /** The `Page` constructor: positive page number and row count, empty grid. */
  function CreatePage(number: int, rows: int, name: string): (r: Result<Page>)
    ensures r.Ok? <==> number > 0 && rows > 0
    ensures number <= 0 ==> r == Err(NonPositivePageNumber)
    ensures number > 0 && rows <= 0 ==> r == Err(NonPositiveRowCount)
    ensures r.Ok? ==> WellFormed(r.value) && r.value.number == number
    ensures r.Ok? ==> r.value.rows == rows && r.value.name == name
    ensures r.Ok? ==> forall i :: 0 <= i < |r.value.grid| ==> r.value.grid[i] == None
  {
    if number <= 0 then Err(NonPositivePageNumber)
    else if rows <= 0 then Err(NonPositiveRowCount)
    else Ok(Page(number, rows, name, seq(rows * Width, _ => None)))
  }

  // ---------------------------------------------------------------------
  // Default button slots
  // ---------------------------------------------------------------------

  /** Column of the bottom row each navigation button defaults to. */
  function DefaultColumn(nav: Nav): int
  {
    match nav
    case Back => 0
    case DeletePage => 3
    case NewPage => 5
    case Forward => 8
  }

  /** The default slot index of each navigation button on a page of `rows` rows. */
  function DefaultIndex(rows: int, nav: Nav): (i: int)
    ensures rows > 0 ==> 0 <= i < rows * Width
    ensures rows > 0 ==> i / Width == rows - 1 && i % Width == DefaultColumn(nav)
  {
    match nav
    case Back => rows * Width - Width
    case Forward => rows * Width - 1
    case NewPage => rows * Width - 4
    case DeletePage => rows * Width - 6
  }

  /** On any real page the four default slots are distinct. */
  lemma DefaultIndicesDistinct(rows: int, a: Nav, b: Nav)
    requires rows > 0
    ensures DefaultIndex(rows, a) == DefaultIndex(rows, b) <==> a == b
  {
  }

  // ---------------------------------------------------------------------
  // Placing buttons
  // ---------------------------------------------------------------------

  /** Where a navigation button goes: its default slot or an explicit index. */
  datatype Slot = Default | At(index: int)

  function SlotIndex(p: Page, nav: Nav, slot: Slot): int
  {
    match slot
    case Default => DefaultIndex(p.rows, nav)
    case At(i) => i
  }

  predicate InGrid(p: Page, index: int)
  {
    0 <= index < |p.grid|
  }

  /** `q` is `p` with slot `index` now showing `m` and nothing else changed. */
  predicate WritesOneCell(p: Page, q: Page, index: int, m: Material)
  {
    && q.number == p.number && q.rows == p.rows && q.name == p.name
    && |q.grid| == |p.grid|
    && 0 <= index < |q.grid| && q.grid[index] == Some(m)
    && forall i :: 0 <= i < |p.grid| && i != index ==> q.grid[i] == p.grid[i]
  }

  /** `Inventory.setItem`: the host refuses a slot outside the grid. */
  function SetItem(p: Page, index: int, m: Material): (r: Result<Page>)
    ensures r.Ok? <==> InGrid(p, index)
    ensures r.Err? ==> r.error == SlotOutOfRange
    ensures r.Ok? ==> WritesOneCell(p, r.value, index, m)
  {
    if InGrid(p, index) then Ok(p.(grid := p.grid[index := Some(m)]))
    else Err(SlotOutOfRange)
  }

  /** A page after a placement, and the button now owned by that page. */
  datatype Placement = Placement(page: Page, button: Button)

  /**
   * `addBackButton`, `addForwardButton`, `addNewPageButton` and
   * `addDeletePageButton`, with or without an explicit index: the slot shows
   * the button's material and the new button is bound to this page.
   */
  function AddNavButton(p: Page, nav: Nav, slot: Slot): (r: Result<Placement>)
    ensures r.Ok? <==> InGrid(p, SlotIndex(p, nav, slot))
    ensures r.Err? ==> r.error == SlotOutOfRange
    ensures r.Ok? ==> WritesOneCell(p, r.value.page, SlotIndex(p, nav, slot), NavMaterial(nav))
    ensures r.Ok? ==> r.value.button.index == SlotIndex(p, nav, slot)
    ensures r.Ok? ==> r.value.button.material == NavMaterial(nav)
    ensures r.Ok? ==> r.value.button.kind == Navigation(nav)
    ensures WellFormed(p) && slot.Default? ==> r.Ok?
  {
    var i := SlotIndex(p, nav, slot);
    match SetItem(p, i, NavMaterial(nav))
    case Err(e) => Err(e)
    case Ok(q) => Ok(Placement(q, Button(i, NavMaterial(nav), Navigation(nav))))
  }

  /** `addCustomButton`: the button's material at the button's own index. */
  function AddCustomButton(p: Page, b: Button): (r: Result<Placement>)
    ensures r.Ok? <==> InGrid(p, b.index)
    ensures r.Err? ==> r.error == SlotOutOfRange
    ensures r.Ok? ==> WritesOneCell(p, r.value.page, b.index, b.material)
    ensures r.Ok? ==> r.value.button == b
  {
    match SetItem(p, b.index, b.material)
    case Err(e) => Err(e)
    case Ok(q) => Ok(Placement(q, b))
  }

  /**
   * The two-argument `addCustomButton(button, index)` that the registry's
   * fan-out calls: the button's material at `index`.
   */
  function AddCustomButtonAt(p: Page, b: Button, index: int): (r: Result<Placement>)
    ensures r.Ok? <==> InGrid(p, index)
    ensures r.Err? ==> r.error == SlotOutOfRange
    ensures r.Ok? ==> WritesOneCell(p, r.value.page, index, b.material)
    ensures r.Ok? ==> r.value.button == b
  {
    match SetItem(p, index, b.material)
    case Err(e) => Err(e)
    case Ok(q) => Ok(Placement(q, b))
  }

  /** A later placement on the same slot replaces the earlier one. */
  lemma SetItemOverwrites(p: Page, index: int, m1: Material, m2: Material)
    requires InGrid(p, index)
    ensures SetItem(p, index, m1).Ok?
    ensures SetItem(SetItem(p, index, m1).value, index, m2) == SetItem(p, index, m2)
  {
    var q := SetItem(p, index, m1).value;
    assert SetItem(q, index, m2).value.grid == SetItem(p, index, m2).value.grid;
  }

  /** Placements on different slots do not interfere, whatever their order. */
  lemma SetItemCommutes(p: Page, i: int, j: int, a: Material, b: Material)
    requires InGrid(p, i) && InGrid(p, j) && i != j
    ensures SetItem(SetItem(p, i, a).value, j, b) == SetItem(SetItem(p, j, b).value, i, a)
  {
    var x := SetItem(SetItem(p, i, a).value, j, b).value;
    var y := SetItem(SetItem(p, j, b).value, i, a).value;
    assert x.grid == y.grid;
  }

  // ---------------------------------------------------------------------
  // Border fill
  // ---------------------------------------------------------------------

  predicate NineWide(pattern: seq<seq<int>>)
  {
    forall r :: 0 <= r < |pattern| ==> |pattern[r]| == Width
  }

  /** What the fill pass leaves in row `r`, column `c`: the fill where the pattern says 1. */
  function FillCell(pattern: seq<seq<int>>, m: Material, r: int, c: int): Cell
    requires 0 <= r < |pattern| && 0 <= c < |pattern[r]|
  {
    if pattern[r][c] == 1 then Some(m) else None
  }

  /**
   * The fill loop of `fillBorder` on its fresh inventory: rows in order,
   * columns in order, one running slot index.
   */
  method FillPass(pattern: seq<seq<int>>, m: Material) returns (g: seq<Cell>)
    requires NineWide(pattern)
    ensures |g| == |pattern| * Width
    ensures forall r, c :: 0 <= r < |pattern| && 0 <= c < Width ==>
              g[r * Width + c] == FillCell(pattern, m, r, c)
  {
    g := seq(|pattern| * Width, _ => None);
    var index := 0;
    var r := 0;
    while r < |pattern|
      invariant 0 <= r <= |pattern|
      invariant index == r * Width
      invariant |g| == |pattern| * Width
      invariant forall r', c :: 0 <= r' < r && 0 <= c < Width ==>
                  g[r' * Width + c] == FillCell(pattern, m, r', c)
      invariant forall i :: index <= i < |g| ==> g[i] == None
    {
      var c := 0;
      while c < Width
        invariant 0 <= c <= Width
        invariant index == r * Width + c
        invariant |g| == |pattern| * Width
        invariant forall r', c' :: 0 <= r' < r && 0 <= c' < Width ==>
                    g[r' * Width + c'] == FillCell(pattern, m, r', c')
        invariant forall c' :: 0 <= c' < c ==> g[r * Width + c'] == FillCell(pattern, m, r, c')
        invariant forall i :: index <= i < |g| ==> g[i] == None
      {
        if pattern[r][c] == 1 {
          g := g[index := Some(m)];
        }
        index := index + 1;
        c := c + 1;
      }
      r := r + 1;
    }
  }

  /** The contents the page held before the fill are put back on top of it. */
  function Restore(before: Cell, filled: Cell): Cell
  {
    if before.Some? then before else filled
  }

  /**
   * `fillBorder`: the pattern must have one row per page row, each nine
   * wide; then the fill material lands on every empty slot whose pattern
   * cell is 1, and everything the page already showed stays where it was.
   */
  function FillBorder(p: Page, pattern: seq<seq<int>>, m: Material): (r: Result<Page>)
    requires WellFormed(p)
    ensures r.Ok? <==> |pattern| == p.rows && NineWide(pattern)
    ensures |pattern| != p.rows ==> r == Err(PatternRowMismatch)
    ensures |pattern| == p.rows && !NineWide(pattern) ==> r == Err(PatternColumnMismatch)
    ensures r.Ok? ==> r.value.number == p.number && r.value.rows == p.rows
    ensures r.Ok? ==> r.value.name == p.name && |r.value.grid| == |p.grid|
    ensures r.Ok? ==> forall i :: 0 <= i < |p.grid| && p.grid[i].Some? ==> r.value.grid[i] == p.grid[i]
    ensures r.Ok? ==> forall row, c :: 0 <= row < |pattern| && 0 <= c < Width && p.grid[row * Width + c] == None ==>
              r.value.grid[row * Width + c] == FillCell(pattern, m, row, c)
  {
    if |pattern| != p.rows then Err(PatternRowMismatch)
    else if exists row :: 0 <= row < |pattern| && |pattern[row]| != Width then Err(PatternColumnMismatch)
    else
      Ok(p.(grid := seq(|p.grid|, i requires 0 <= i < |p.grid| =>
                          Restore(p.grid[i], FillCell(pattern, m, i / Width, i % Width)))))
  }

  // ---------------------------------------------------------------------
  // Numbered titles
  // ---------------------------------------------------------------------

  /** `name + " - " + n`. */
  function Suffixed(name: string, n: int): string
  {
    name + " - " + Decimal.Show(n)
  }

  /** A suffixed title starts with the old title and its suffix reads back as `n`. */
  lemma SuffixReadsBack(name: string, n: int)
    ensures |Suffixed(name, n)| > |name| + 3
    ensures Suffixed(name, n)[..|name|] == name
    ensures Suffixed(name, n)[|name|..|name| + 3] == " - "
    ensures Decimal.Parse(Suffixed(name, n)[|name| + 3..]) == Some(n)
  {
    assert Suffixed(name, n)[|name| + 3..] == Decimal.Show(n);
    Decimal.ParseShow(n);
  }

  /** Two suffixes on one base title agree only for the same number. */
  lemma SuffixInjective(name: string, a: int, b: int)
    ensures Suffixed(name, a) == Suffixed(name, b) <==> a == b
  {
    if Suffixed(name, a) == Suffixed(name, b) {
      SuffixReadsBack(name, a);
      SuffixReadsBack(name, b);
    }
  }

  /**
   * `renameAscending`: the page number is appended to the title. The grid
   * is kept.
   */
  function RenameAscending(p: Page): (q: Page)
    ensures q.number == p.number && q.rows == p.rows && q.grid == p.grid
    ensures q.name == Suffixed(p.name, p.number)
  {
    p.(name := Suffixed(p.name, p.number))
  }

  /** The ascending title keeps the old title as its prefix and its suffix reads back as the page number. */
  lemma RenameAscendingReadsBack(p: Page)
    ensures var q := RenameAscending(p);
      |q.name| > |p.name| + 3 && q.name[..|p.name|] == p.name &&
      Decimal.Parse(q.name[|p.name| + 3..]) == Some(p.number)
  {
    SuffixReadsBack(p.name, p.number);
  }

  /**
   * `renameDescending`: the distance from the page number to the registry
   * size `size` is appended to the title. The grid is kept.
   */
  function RenameDescending(p: Page, size: int): (q: Page)
    ensures q.number == p.number && q.rows == p.rows && q.grid == p.grid
    ensures q.name == Suffixed(p.name, size - p.number)
  {
    p.(name := Suffixed(p.name, size - p.number))
  }

  /** The descending title keeps the old title as its prefix and its suffix reads back as `size` minus the number. */
  lemma RenameDescendingReadsBack(p: Page, size: int)
    ensures var q := RenameDescending(p, size);
      |q.name| > |p.name| + 3 && q.name[..|p.name|] == p.name &&
      Decimal.Parse(q.name[|p.name| + 3..]) == Some(size - p.number)
  {
    SuffixReadsBack(p.name, size - p.number);
  }

  /** Renaming twice stacks two suffixes: the operation is not idempotent. */
  lemma RenameAscendingTwice(p: Page)
    ensures RenameAscending(RenameAscending(p)).name == Suffixed(Suffixed(p.name, p.number), p.number)
    ensures RenameAscending(RenameAscending(p)) != RenameAscending(p)
  {
    var once := RenameAscending(p);
    assert |RenameAscending(once).name| > |once.name|;
  }
}
