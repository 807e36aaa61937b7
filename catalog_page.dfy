/**
 * The catalog page in the browser: the page, search text and sort order it
 * keeps, the request it sends, the per-game status buttons and the
 * pagination bar it draws from the number of matching games.
 */
module CatalogPage {
  import opened Wrappers
  import opened Schema
  import opened Strings
  import opened GameModel
  import opened UserGameModel
  import Catalog
  import Backlog

  const GamesPerPage: int := 5
  const VisiblePages: int := 3

  /** `Math.ceil(totalGames / gamesPerPage)`. */
  function TotalPages(totalGames: nat): (tp: nat)
    ensures tp * GamesPerPage >= totalGames
    ensures tp > 0 ==> (tp - 1) * GamesPerPage < totalGames
    ensures tp == 0 <==> totalGames == 0
  {
    (totalGames + GamesPerPage - 1) / GamesPerPage
  }

  /** The current page raised to 1, then lowered to the last page. */
  function ClampPage(page: int, totalPages: nat): (c: int)
    ensures totalPages >= 1 ==> 1 <= c <= totalPages
    ensures totalPages == 0 ==> c == 0
    ensures 1 <= page <= totalPages ==> c == page
    ensures page < 1 && totalPages >= 1 ==> c == 1
    ensures page > totalPages ==> c == totalPages
  {
    var raised := if page < 1 then 1 else page;
    if raised > totalPages then totalPages else raised
  }

  /** A page number that `ClampPage` can produce. */
  predicate Clamped(page: int, totalPages: nat)
  {
    if totalPages == 0 then page == 0 else 1 <= page <= totalPages
  }

  /** The first and last page of the three-wide window, before the bounds check. */
  function WindowBounds(page: int, totalPages: nat): (int, int)
  {
    if totalPages <= VisiblePages then (1, totalPages)
    else if page <= 2 then (page - 1, if VisiblePages < totalPages then VisiblePages else totalPages)
    else if page >= totalPages - 1 then
      (if totalPages - VisiblePages + 1 > 1 then totalPages - VisiblePages + 1 else 1, page + 1)
    else (page - 1, page + 1)
  }

  /** The numbered pages drawn: the window cut down to 1..totalPages. */
  function ShownPages(page: int, totalPages: nat): seq<int>
  {
    var (start, end) := WindowBounds(page, totalPages);
    var lo := if start < 1 then 1 else start;
    var hi := if end > totalPages then totalPages else end;
    if hi < lo then [] else seq(hi - lo + 1, k => lo + k)
  }

  datatype Control = First | Previous | PageButton(page: int, active: bool) | Next | Last

  predicate ShowFirst(page: int, totalPages: nat) { totalPages > VisiblePages && page > 2 }
  predicate ShowPrevious(page: int) { page > 1 }
  predicate ShowNext(page: int, totalPages: nat) { page < totalPages }
  predicate ShowLast(page: int, totalPages: nat) { totalPages > VisiblePages && page < totalPages - 1 }

  function NumberButtonsOf(pages: seq<int>, page: int): seq<Control>
  {
    seq(|pages|, k requires 0 <= k < |pages| => PageButton(pages[k], pages[k] == page))
  }

  /** The pagination bar for a (clamped) page: First, Previous, numbers, Next, Last. */
  function Controls(page: int, totalPages: nat): seq<Control>
  {
    (if ShowFirst(page, totalPages) then [First] else []) +
    (if ShowPrevious(page) then [Previous] else []) +
    NumberButtonsOf(ShownPages(page, totalPages), page) +
    (if ShowNext(page, totalPages) then [Next] else []) +
    (if ShowLast(page, totalPages) then [Last] else [])
  }

  /**
   * The window: exactly min(3, totalPages) consecutive pages, all within
   * 1..totalPages, and the current page among them.
   */
  lemma WindowShape(page: int, totalPages: nat)
    requires Clamped(page, totalPages)
    ensures var pages := ShownPages(page, totalPages);
      && |pages| == (if totalPages < VisiblePages then totalPages else VisiblePages)
      && (forall k :: 0 <= k < |pages| ==> pages[k] == pages[0] + k)
      && (forall p :: p in pages ==> 1 <= p <= totalPages)
      && (totalPages >= 1 ==> page in pages)
  {
    var pages := ShownPages(page, totalPages);
    if totalPages >= 1 {
      assert pages[page - pages[0]] == page;
    }
  }

  /** "First" is drawn exactly when page 1 is not in the window (and there are pages). */
  lemma FirstIffPageOneHidden(page: int, totalPages: nat)
    requires Clamped(page, totalPages)
    ensures First in Controls(page, totalPages) <==> totalPages >= 1 && 1 !in ShownPages(page, totalPages)
  {
    WindowShape(page, totalPages);
    var c := Controls(page, totalPages);
    if ShowFirst(page, totalPages) {
      assert c[0] == First;
    }
  }

  /** "Last" is drawn exactly when the last page is not in the window (and there are pages). */
  lemma LastIffLastPageHidden(page: int, totalPages: nat)
    requires Clamped(page, totalPages)
    ensures Last in Controls(page, totalPages) <==>
            totalPages >= 1 && totalPages !in ShownPages(page, totalPages)
  {
    WindowShape(page, totalPages);
    var c := Controls(page, totalPages);
    var pages := ShownPages(page, totalPages);
    if ShowLast(page, totalPages) {
      assert c[|c| - 1] == Last;
      assert pages[|pages| - 1] < totalPages;
    } else if totalPages >= 1 {
      assert pages[|pages| - 1] == totalPages;
    }
  }

  /** "Previous" iff there is an earlier page, "Next" iff there is a later one. */
  lemma PreviousNextVisibility(page: int, totalPages: nat)
    ensures Previous in Controls(page, totalPages) <==> page > 1
    ensures Next in Controls(page, totalPages) <==> page < totalPages
  {
    var c := Controls(page, totalPages);
    var firsts := if ShowFirst(page, totalPages) then [First] else [];
    if page > 1 {
      assert c[|firsts|] == Previous;
    }
    if page < totalPages {
      var before := firsts + (if ShowPrevious(page) then [Previous] else []) +
                    NumberButtonsOf(ShownPages(page, totalPages), page);
      assert c[|before|] == Next;
    }
  }

  /** With no matching games the bar is empty. */
  lemma NoControlsWithoutGames(page: int)
    ensures Controls(ClampPage(page, TotalPages(0)), TotalPages(0)) == []
  {
  }

  /** A numbered button of the bar belongs to a page of the window and is active iff it is the current page. */
  lemma PageButtonInWindow(page: int, totalPages: nat, b: Control)
    requires b in Controls(page, totalPages) && b.PageButton?
    ensures b.page in ShownPages(page, totalPages)
    ensures b.active <==> b.page == page
  {
    var pages := ShownPages(page, totalPages);
    var nums := NumberButtonsOf(pages, page);
    assert b in nums;
    var k :| 0 <= k < |nums| && nums[k] == b;
  }

  /** Exactly the button of the current page is active. */
  lemma ExactlyCurrentActive(page: int, totalPages: nat, b: Control)
    requires Clamped(page, totalPages) && totalPages >= 1
    requires b in Controls(page, totalPages) && b.PageButton?
    ensures b.active <==> b.page == page
    ensures PageButton(page, true) in Controls(page, totalPages)
  {
    WindowShape(page, totalPages);
    var pages := ShownPages(page, totalPages);
    var nums := NumberButtonsOf(pages, page);
    var k :| 0 <= k < |pages| && pages[k] == page;
    assert nums[k] == PageButton(page, true);
    var c := Controls(page, totalPages);
    assert c == (if ShowFirst(page, totalPages) then [First] else []) +
                (if ShowPrevious(page) then [Previous] else []) + nums +
                ((if ShowNext(page, totalPages) then [Next] else []) +
                 (if ShowLast(page, totalPages) then [Last] else []));
    assert nums[k] in c;
  }

  /** The numbered buttons, one per page from `startPage` to `endPage` that exists. */
  method NumberButtons(startPage: int, endPage: int, totalPages: nat, currentPage: int)
    returns (buttons: seq<Control>)
    ensures var lo := if startPage < 1 then 1 else startPage;
            var hi := if endPage > totalPages then totalPages else endPage;
      && |buttons| == (if hi < lo then 0 else hi - lo + 1)
      && forall k :: 0 <= k < |buttons| ==> buttons[k] == PageButton(lo + k, lo + k == currentPage)
  {
    var lo := if startPage < 1 then 1 else startPage;
    buttons := [];
    var i := startPage;
    while i <= endPage
      invariant startPage <= i <= (if endPage < startPage then startPage else endPage + 1)
      invariant var hi := if i - 1 > totalPages then totalPages else i - 1;
                |buttons| == (if hi < lo then 0 else hi - lo + 1)
      invariant forall k :: 0 <= k < |buttons| ==> buttons[k] == PageButton(lo + k, lo + k == currentPage)
    {
      if i > 0 && i <= totalPages {
        buttons := buttons + [PageButton(i, i == currentPage)];
      }
      i := i + 1;
    }
  }

  /** The drawing half of `renderPagination`, for a page already clamped. */
  method DrawBar(page: int, totalPages: nat) returns (bar: seq<Control>)
    ensures bar == Controls(page, totalPages)
  {
    var startPage := page - 1;
    var endPage := page + 1;
    if totalPages <= VisiblePages {
      startPage := 1;
      endPage := totalPages;
    } else {
      if page <= 2 {
        endPage := if VisiblePages < totalPages then VisiblePages else totalPages;
      } else if page >= totalPages - 1 {
        startPage := if totalPages - VisiblePages + 1 > 1 then totalPages - VisiblePages + 1 else 1;
      }
    }
    assert (startPage, endPage) == WindowBounds(page, totalPages);
    bar := [];
    if totalPages > VisiblePages && page > 2 {
      bar := bar + [First];
    }
    if page > 1 {
      bar := bar + [Previous];
    }
    var numbers := NumberButtons(startPage, endPage, totalPages, page);
    assert numbers == NumberButtonsOf(ShownPages(page, totalPages), page);
    bar := bar + numbers;
    if page < totalPages {
      bar := bar + [Next];
    }
    if totalPages > VisiblePages && page < totalPages - 1 {
      bar := bar + [Last];
    }
  }

  /** The two status buttons of one game in the list. */
  datatype GameButtons = GameButtons(addPlayedDisabled: bool, addToPlayDisabled: bool)

  /** The user's records say the game is played / wanted. */
  function ButtonsFor(userGames: seq<UserGame>, gameId: Id): (b: GameButtons)
    ensures b.addPlayedDisabled <==> exists ug :: ug in userGames && ug.game == gameId && ug.played
    ensures b.addToPlayDisabled <==> exists ug :: ug in userGames && ug.game == gameId && ug.wantToPlay
  {
    GameButtons(
      exists ug :: ug in userGames && ug.game == gameId && ug.played,
      exists ug :: ug in userGames && ug.game == gameId && ug.wantToPlay)
  }

  /** A game of the list with its buttons. */
  datatype GameItem = GameItem(game: Game, buttons: GameButtons)

  /** `displayGames`: one item per listed game, in order. */
  method DisplayGames(games: seq<Game>, userGames: seq<UserGame>) returns (items: seq<GameItem>)
    ensures |items| == |games|
    ensures forall k :: 0 <= k < |games| ==> items[k] == GameItem(games[k], ButtonsFor(userGames, games[k].id))
  {
    items := [];
    for k := 0 to |games|
      invariant |items| == k
      invariant forall j :: 0 <= j < k ==> items[j] == GameItem(games[j], ButtonsFor(userGames, games[j].id))
    {
      var isPlayed := exists ug :: ug in userGames && ug.game == games[k].id && ug.played;
      var isToPlay := exists ug :: ug in userGames && ug.game == games[k].id && ug.wantToPlay;
      items := items + [GameItem(games[k], GameButtons(isPlayed, isToPlay))];
    }
  }

  /** The buttons show what the backlog holds for the user and the game. */
  lemma ButtonsReflectBacklog(rs: seq<UserGame>, user: Id, game: Id)
    requires Backlog.ValidTable(rs)
    ensures var b := ButtonsFor(Backlog.OwnedBy(rs, user), game);
            var i := Backlog.Find(rs, user, game);
      && (b.addPlayedDisabled <==> i.Some? && rs[i.value].played)
      && (b.addToPlayDisabled <==> i.Some? && rs[i.value].wantToPlay)
  {
    var owned := Backlog.OwnedBy(rs, user);
    var i := Backlog.Find(rs, user, game);
    forall ug | ug in owned && ug.game == game ensures i.Some? && ug == rs[i.value] {
      var j :| 0 <= j < |rs| && rs[j] == ug;
      assert Backlog.IsFor(rs[j], user, game);
      Backlog.SamePairSameIndex(rs, i.value, j);
    }
    if i.Some? {
      assert rs[i.value] in owned;
    }
  }

  /**
   * After a successful "played" request a reload shows "Add to Played"
   * disabled and "Add to Want to Play" enabled, which is what the page
   * sets locally; "to-play" the other way round.
   */
  lemma ButtonsAfterStatus(rs: seq<UserGame>, user: Id, game: Id, status: string)
    requires Backlog.ValidTable(rs) && user != "" && game != ""
    requires status == "played" || status == "to-play"
    ensures var b := ButtonsFor(Backlog.OwnedBy(Backlog.AfterStatus(rs, user, game, status), user), game);
      b == GameButtons(status == "played", status == "to-play")
  {
    Backlog.AfterStatusValid(rs, user, game, status);
    Backlog.StatusResult(rs, user, game, status);
    ButtonsReflectBacklog(Backlog.AfterStatus(rs, user, game, status), user, game);
  }

  class CatalogPageState {
    var currentPage: int
    var currentSearchQuery: string
    var currentSortOrder: string
    /** The game list and the pagination bar as last drawn. */
    var items: seq<GameItem>
    var controls: seq<Control>
    /** The text of the error dialog, once one has been shown. */
    var error: Option<string>
    /** Where the page has sent the browser, if anywhere. */
    var location: Option<string>

    constructor ()
      ensures currentPage == 1 && currentSearchQuery == "" && currentSortOrder == Catalog.DefaultSort
      ensures items == [] && controls == [] && error == None && location == None
    {
      currentPage := 1;
      currentSearchQuery := "";
      currentSortOrder := Catalog.DefaultSort;
      items := [];
      controls := [];
      error := None;
      location := None;
    }

    /** The listing request: `query` is sent only for a non-empty search text. */
    function GamesRequest(): (q: Catalog.GamesQuery)
      reads this
      ensures q.query.Some? <==> currentSearchQuery != ""
      ensures q.query.Some? ==> q.query.value == currentSearchQuery
      ensures q.page == Some(currentPage) && q.limit == Some(GamesPerPage)
      ensures q.sort == Some(currentSortOrder)
    {
      Catalog.GamesQuery(
        if currentSearchQuery != "" then Some(currentSearchQuery) else None,
        Some(currentPage), Some(GamesPerPage), Some(currentSortOrder))
    }

    /** `searchGames`: the text is lower-cased and the page reset to 1. */
    method SearchGames(text: string)
      modifies this
      ensures currentSearchQuery == Lower(text) && currentPage == 1
      ensures currentSortOrder == old(currentSortOrder)
      ensures items == old(items) && controls == old(controls) && error == old(error) && location == old(location)
    {
      currentSearchQuery := Lower(text);
      currentPage := 1;
    }

    /** `changeSortOrder`: the new order, from page 1. */
    method ChangeSortOrder(order: string)
      modifies this
      ensures currentSortOrder == order && currentPage == 1
      ensures currentSearchQuery == old(currentSearchQuery)
      ensures items == old(items) && controls == old(controls) && error == old(error) && location == old(location)
    {
      currentSortOrder := order;
      currentPage := 1;
    }

    /** `renderPagination`: clamps the current page in place and draws the bar. */
    method RenderPagination(totalGames: nat)
      modifies this
      ensures currentPage == ClampPage(old(currentPage), TotalPages(totalGames))
      ensures controls == Controls(currentPage, TotalPages(totalGames))
      ensures currentSearchQuery == old(currentSearchQuery) && currentSortOrder == old(currentSortOrder)
      ensures items == old(items) && error == old(error) && location == old(location)
    {
      var totalPages := TotalPages(totalGames);
      var page := currentPage;
      if page < 1 {
        page := 1;
      }
      if page > totalPages {
        page := totalPages;
      }
      currentPage := page;
      controls := DrawBar(page, totalPages);
    }

    /**
     * `loadGames`: without a token the browser goes to the login page;
     * otherwise the current page is requested and drawn with the user's
     * records (`/user-added`) and the bar. A failed request draws nothing.
     */
    method LoadGames(catalog: seq<Game>, store: Backlog.BacklogStore, token: Option<Id>)
      modifies this
      ensures token.None? ==>
        location == Some("/login") && items == old(items) && controls == old(controls) && currentPage == old(currentPage)
      ensures token.Some? ==> var r := Catalog.ListGames(catalog, old(GamesRequest()));
        if r.Failure? then
          items == old(items) && controls == old(controls) && currentPage == old(currentPage)
        else
          && |items| == |r.value.games|
          && (forall k :: 0 <= k < |r.value.games| ==>
                items[k] == GameItem(r.value.games[k], ButtonsFor(Backlog.OwnedBy(store.records, token.value), r.value.games[k].id)))
          && currentPage == ClampPage(old(currentPage), TotalPages(r.value.totalGames))
          && controls == Controls(currentPage, TotalPages(r.value.totalGames))
      ensures token.Some? ==> location == old(location)
      ensures currentSearchQuery == old(currentSearchQuery) && currentSortOrder == old(currentSortOrder)
      ensures error == old(error)
    {
      if token.None? {
        location := Some("/login");
        return;
      }
      var response := Catalog.ListGames(catalog, GamesRequest());
      var userGames := store.UserAdded(token.value);
      if response.Failure? {
        return;
      }
      items := DisplayGames(response.value.games, userGames);
      RenderPagination(response.value.totalGames);
    }

    /**
     * `handleAddPlayed` (`played`) and `handleAddToPlay` (not `played`) on
     * the item at `k`: without a token an error is shown and nothing is
     * sent; on success the clicked button is disabled and the other one
     * enabled, which is exactly what a reload would draw.
     */
    method HandleAdd(store: Backlog.BacklogStore, token: Option<Id>, k: nat, played: bool)
      requires k < |items|
      requires store.Valid()
      modifies this, store
      ensures store.Valid()
      ensures |items| == |old(items)|
      ensures forall j :: 0 <= j < |items| && j != k ==> items[j] == old(items[j])
      ensures items[k].game == old(items[k].game)
      ensures token.None? ==>
        && store.records == old(store.records) && items == old(items)
        && error == Some("You must be logged in to add a game.")
      ensures token.Some? ==> var user := token.value;
        var gameId := old(items[k].game.id);
        && store.records == Backlog.AfterStatus(old(store.records), user, gameId, if played then "played" else "to-play")
        && (user != "" && gameId != "" ==>
              && items[k].buttons == GameButtons(played, !played)
              && items[k].buttons == ButtonsFor(Backlog.OwnedBy(store.records, user), gameId)
              && error == old(error))
        && (user == "" || gameId == "" ==>
              && error == Some(if played then "Error adding game as played" else "Error adding game to play list")
              && items == old(items))
      ensures currentPage == old(currentPage) && controls == old(controls) && location == old(location)
      ensures currentSearchQuery == old(currentSearchQuery) && currentSortOrder == old(currentSortOrder)
    {
      if token.None? {
        error := Some("You must be logged in to add a game.");
        return;
      }
      var user := token.value;
      var gameId := items[k].game.id;
      var status := if played then "played" else "to-play";
      ghost var before := store.records;
      if user == "" || gameId == "" {
        assert Backlog.Find(before, user, gameId).None? by {
          forall j | 0 <= j < |before| ensures !Backlog.IsFor(before[j], user, gameId) {
            assert before[j] in before;
          }
        }
      }
      var resp := store.SetStatus(user, gameId, status);
      if resp.Ok? {
        items := items[k := GameItem(items[k].game, GameButtons(played, !played))];
        if user != "" && gameId != "" {
          ButtonsAfterStatus(before, user, gameId, status);
        }
      } else {
        error := Some(if played then "Error adding game as played" else "Error adding game to play list");
      }
    }

    /** The page a click on a control of a bar drawn for `totalPages` moves to. */
    method Click(c: Control, totalPages: nat)
      modifies this
      ensures currentSearchQuery == old(currentSearchQuery) && currentSortOrder == old(currentSortOrder)
      ensures items == old(items) && controls == old(controls) && error == old(error) && location == old(location)
      ensures currentPage == match c
        case First => 1
        case Previous => if old(currentPage) > 1 then old(currentPage) - 1 else old(currentPage)
        case PageButton(i, _) => i
        case Next => old(currentPage) + 1
        case Last => totalPages
    {
      match c
      case First => currentPage := 1;
      case Previous =>
        if currentPage > 1 {
          currentPage := currentPage - 1;
        }
      case PageButton(i, _) => currentPage := i;
      case Next => currentPage := currentPage + 1;
      case Last => currentPage := totalPages;
    }
  }

  /** A click on any drawn control of a clamped bar asks for a page that exists. */
  lemma ClickStaysInRange(page: int, totalPages: nat, c: Control)
    requires Clamped(page, totalPages)
    requires c in Controls(page, totalPages)
    ensures var next := match c
        case First => 1
        case Previous => if page > 1 then page - 1 else page
        case PageButton(i, _) => i
        case Next => page + 1
        case Last => totalPages;
      1 <= next <= totalPages
  {
    WindowShape(page, totalPages);
    if c.PageButton? {
      PageButtonInWindow(page, totalPages, c);
    } else if c == First {
      FirstIffPageOneHidden(page, totalPages);
    } else if c == Last {
      LastIffLastPageHidden(page, totalPages);
    } else {
      PreviousNextVisibility(page, totalPages);
    }
  }

  /** The search text is lower-cased, which the case-insensitive filter does not notice. */
  lemma LowerCasedSearchSameMatches(g: Game, text: string)
    ensures Catalog.Matches(g, Some(Lower(text))) == Catalog.Matches(g, Some(text))
  {
    LowerPatternIrrelevant(g.name, text);
  }
}
