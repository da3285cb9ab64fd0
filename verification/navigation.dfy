/**
 * What a click does: the `onClick` of the four navigation buttons, the
 * dispatch from a button to its `onClick`, and the listener entry point
 * `checkForButtonPress`.
 *
 * A button reaches its page through a live reference; here that page's
 * current state is passed in as `owner` (None for a button never placed on
 * a page). Opening a page for the player is reported as the key of the page
 * opened.
 */
module Navigation {

  import opened Common
  import opened Buttons
  import opened Pages
  import opened Gui

  /**
   * What the host hands a listener: whether a player clicked, the size of
   * the clicked inventory (None when the click hit no inventory), the slot,
   * the title of the inventory and what the slot showed.
   */
  datatype ClickEvent = ClickEvent(
    byPlayer: bool,
    clickedSize: Option<nat>,
    slot: int,
    title: string,
    current: Option<Material>)

  /**
   * The registry after a click, the key of the page opened for the player,
   * and the caller-defined `onClick` that ran, if any.
   */
  datatype Effect = Effect(gui: Registry, shown: Option<int>, fired: Option<nat>)

  function Nothing(g: Registry): Effect
  {
    Effect(g, None, None)
  }

  /** Open the page under `target` when there is one; otherwise nothing happens. */
  function OpenIfPresent(g: Registry, target: int): Effect
  {
    if target in g.pages then Effect(g, Some(target), None) else Nothing(g)
  }

  /** `BackButton.onClick`. */
  function BackClick(g: Registry, owner: Page, ev: ClickEvent): (e: Effect)
    ensures e.gui == g && e.fired == None
    ensures e.shown.Some? <==> ev.byPlayer && owner.number - 1 in g.pages
    ensures e.shown.Some? ==> e.shown.value == owner.number - 1
  {
    if !ev.byPlayer then Nothing(g) else OpenIfPresent(g, owner.number - 1)
  }

  /** `ForwardButton.onClick`. */
  function ForwardClick(g: Registry, owner: Page, ev: ClickEvent): (e: Effect)
    ensures e.gui == g && e.fired == None
    ensures e.shown.Some? <==> ev.byPlayer && owner.number + 1 in g.pages
    ensures e.shown.Some? ==> e.shown.value == owner.number + 1
  {
    if !ev.byPlayer then Nothing(g) else OpenIfPresent(g, owner.number + 1)
  }

  /** On dense keys 1..N, back works everywhere but page 1 and forward everywhere but page N. */
  lemma NavigationOnDenseKeys(g: Registry, owner: Page, ev: ClickEvent)
    requires Dense(g.pages) && owner.number in g.pages && ev.byPlayer
    ensures BackClick(g, owner, ev).shown.Some? <==> owner.number > 1
    ensures ForwardClick(g, owner, ev).shown.Some? <==> owner.number < |g.pages|
  {
  }

  /** Going forward and then back from the page reached returns to the start. */
  lemma ForwardThenBack(g: Registry, owner: Page, ev: ClickEvent)
    requires Valid(g) && owner.number in g.pages
    requires ForwardClick(g, owner, ev).shown.Some?
    ensures var next := ForwardClick(g, owner, ev).shown.value;
      next in g.pages && BackClick(g, g.pages[next], ev).shown == Some(owner.number)
  {
  }

  /** Going back and then forward from the page reached returns to the start. */
  lemma BackThenForward(g: Registry, owner: Page, ev: ClickEvent)
    requires Valid(g) && owner.number in g.pages
    requires BackClick(g, owner, ev).shown.Some?
    ensures var prev := BackClick(g, owner, ev).shown.value;
      prev in g.pages && ForwardClick(g, g.pages[prev], ev).shown == Some(owner.number)
  {
  }

  /**
   * `NewPageButton.onClick`: a page with as many rows as the clicked
   * inventory, titled like the page clicked from, added and opened.
   */
  function NewPageClick(g: Registry, owner: Page, ev: ClickEvent): (r: Result<Effect>)
    ensures !ev.byPlayer || ev.clickedSize.None? ==> r == Ok(Nothing(g))
    ensures r.Err? <==> ev.byPlayer && ev.clickedSize.Some? && ev.clickedSize.value < 9
    ensures r.Err? ==> r.error == NonPositiveRowCount
    ensures r.Ok? && r.value.shown.Some? ==> r.value.shown.value in r.value.gui.pages
    ensures r.Ok? && ev.byPlayer && ev.clickedSize.Some? ==>
              && r.value.shown == Some(|g.pages| + 1)
              && r.value.fired == None
              && r.value.gui == AddNewPage(g, ev.clickedSize.value / 9, owner.name).value.gui
  {
    if !ev.byPlayer then Ok(Nothing(g))
    else
      match ev.clickedSize
      case None => Ok(Nothing(g))
      case Some(size) =>
        match AddNewPage(g, size / 9, owner.name)
        case Err(e) => Err(e)
        case Ok(a) => Ok(Effect(a.gui, Some(a.page.number), None))
  }

  /**
   * The page a new-page click opens is the one it added: it sits under the
   * new key, has the clicked inventory's row count and a title that starts
   * with the title of the page clicked from.
   */
  lemma NewPageClickOpensAddedPage(g: Registry, owner: Page, ev: ClickEvent)
    requires ev.byPlayer && ev.clickedSize.Some? && ev.clickedSize.value >= 9
    ensures NewPageClick(g, owner, ev).Ok?
    ensures var e := NewPageClick(g, owner, ev).value;
      && e.shown.Some? && e.shown.value in e.gui.pages
      && e.gui.pages[e.shown.value].rows == ev.clickedSize.value / 9
      && |owner.name| <= |e.gui.pages[e.shown.value].name|
      && e.gui.pages[e.shown.value].name[..|owner.name|] == owner.name
  {
    var n := |g.pages| + 1;
    var p := AddNewPage(g, ev.clickedSize.value / 9, owner.name).value.page;
    if g.ascending {
      SuffixReadsBack(owner.name, n);
    } else if g.descending {
      SuffixReadsBack(owner.name, |AddNewPage(g, ev.clickedSize.value / 9, owner.name).value.gui.pages| - n);
    }
  }

  /** `DeletePageButton.onClick`: deletes the owning page; the clicker is not checked. */
  function DeleteClick(g: Registry, owner: Page, ev: ClickEvent): (e: Effect)
    ensures e.gui == RemovePage(g, owner.number)
    ensures owner.number !in e.gui.pages
    ensures e.shown == None && e.fired == None
  {
    Nothing(RemovePage(g, owner.number))
  }

  /**
   * The `onClick` a button runs. A caller-defined button runs its own
   * handler, reported in `fired`, whether or not it was ever placed, since
   * the handler need not look at the page. A navigation button reaches its
   * page first, so one never placed does nothing here.
   */
  function OnClick(b: Button, owner: Option<Page>, g: Registry, ev: ClickEvent): (r: Result<Effect>)
    ensures owner.None? && b.kind.Navigation? ==> r == Ok(Nothing(g))
    ensures r.Err? ==> b.kind == Navigation(NewPage)
    ensures b.kind != Navigation(NewPage) && b.kind != Navigation(DeletePage) ==> r.Ok? && r.value.gui == g
    ensures r.Ok? && r.value.shown.Some? ==> r.value.shown.value in r.value.gui.pages
    ensures r.Ok? ==> (r.value.fired.Some? <==> b.kind.Custom?)
    ensures r.Ok? && r.value.fired.Some? ==> r.value.fired == Some(b.kind.id)
  {
    match b.kind
    case Custom(id) => Ok(Effect(g, None, Some(id)))
    case Navigation(nav) =>
      match owner
      case None => Ok(Nothing(g))
      case Some(p) =>
        match nav
        case Back => Ok(BackClick(g, p, ev))
        case Forward => Ok(ForwardClick(g, p, ev))
        case NewPage => NewPageClick(g, p, ev)
        case DeletePage => Ok(DeleteClick(g, p, ev))
  }

  // ---------------------------------------------------------------------
  // The listener entry point
  // ---------------------------------------------------------------------

  /**
   * `checkForButtonPress` as written: every click event the host delivers
   * runs the button's `onClick`, whatever inventory, slot or item it hit.
   */
  function CheckForButtonPress(b: Button, owner: Option<Page>, g: Registry, ev: ClickEvent): Result<Effect>
  {
    OnClick(b, owner, g, ev)
  }

  /** As written, the outcome does not depend on the clicked title, slot or item. */
  lemma PressIgnoresClickTarget(b: Button, owner: Option<Page>, g: Registry, ev1: ClickEvent, ev2: ClickEvent)
    requires ev1.byPlayer == ev2.byPlayer && ev1.clickedSize == ev2.clickedSize
    ensures CheckForButtonPress(b, owner, g, ev1) == CheckForButtonPress(b, owner, g, ev2)
  {
    assert ev1.(slot := 0, title := "", current := None) == ev2.(slot := 0, title := "", current := None);
  }

  /**
   * The registry the counterexample starts from: two one-row pages titled
   * "Shop", page 1 with its delete button placed at the default slot.
   */
  function TwoShopPages(): (g: Registry)
    ensures 1 in g.pages && 2 in g.pages
  {
    var blank := Page(1, 1, "Shop", seq(Width, _ => None));
    assert WellFormed(blank);
    var placed := AddNavButton(blank, DeletePage, Default).value;
    Registry(map[1 := placed.page, 2 := blank.(number := 2)], false, false)
  }

  /** The delete button `TwoShopPages` placed on page 1. */
  function ShopDeleteButton(): (b: Button)
    ensures b == Button(3, Tnt, Navigation(DeletePage))
    ensures TwoShopPages().pages[1].grid[b.index] == Some(b.material)
  {
    var blank := Page(1, 1, "Shop", seq(Width, _ => None));
    assert WellFormed(blank);
    AddNavButton(blank, DeletePage, Default).value.button
  }

  /**
   * A click on slot 0 of some other inventory still runs the delete button
   * placed in slot 3 of page 1, and page 1 is gone.
   */
  lemma StrayClickDeletesPage()
    ensures var g := TwoShopPages();
      var ev := ClickEvent(true, Some(27), 0, "Other", None);
      var r := CheckForButtonPress(ShopDeleteButton(), Some(g.pages[1]), g, ev);
      r.Ok? && r.value.gui.pages.Keys == {2}
  {
    var g := TwoShopPages();
    assert (g.pages - {1}).Keys == {2};
  }

  /**
   * The routing the listener evidently intends: the click must come from a
   * player, on an inventory titled like the owning page, on the button's
   * slot, on the button's material.
   */
  predicate Matches(b: Button, owner: Page, ev: ClickEvent)
  {
    ev.byPlayer && ev.title == owner.name && ev.slot == b.index && ev.current == Some(b.material)
  }

  /** `checkForButtonPress` with the button-press check filled in. */
  function RoutedPress(b: Button, owner: Option<Page>, g: Registry, ev: ClickEvent): (r: Result<Effect>)
    ensures owner.None? || !Matches(b, owner.value, ev) ==> r == Ok(Nothing(g))
    ensures owner.Some? && Matches(b, owner.value, ev) ==> r == OnClick(b, owner, g, ev)
  {
    if owner.Some? && Matches(b, owner.value, ev) then OnClick(b, owner, g, ev)
    else Ok(Nothing(g))
  }

  /** Under routing, the stray click of the counterexample leaves the registry alone. */
  lemma RoutedStrayClickIsIgnored()
    ensures var g := TwoShopPages();
      var ev := ClickEvent(true, Some(27), 0, "Other", None);
      RoutedPress(ShopDeleteButton(), Some(g.pages[1]), g, ev) == Ok(Nothing(g))
  {
  }

  /**
   * Under routing, a player's click on the slot where a button was placed
   * runs that button, and the same click runs no other button of the page
   * that sits on another slot: at most one button answers a click.
   */
  lemma RoutedPressAnswersPlacedButton(p: Page, b: Button, other: Button, g: Registry, ev: ClickEvent)
    requires AddCustomButton(p, b).Ok?
    requires var q := AddCustomButton(p, b).value.page;
      ev.byPlayer && ev.title == q.name && ev.slot == b.index && ev.current == q.grid[b.index]
    requires other.index != b.index
    ensures var q := AddCustomButton(p, b).value.page;
      RoutedPress(b, Some(q), g, ev) == OnClick(b, Some(q), g, ev)
    ensures var q := AddCustomButton(p, b).value.page;
      RoutedPress(other, Some(q), g, ev) == Ok(Nothing(g))
  {
  }
}
