/**
 * The profile page: the want-to-play and played sections built from
 * `GET /user-games`, and the three actions on them (mark as played, edit
 * the rating, remove), each of which reloads the sections when it succeeds.
 */
module ProfilePage {
  import opened Wrappers
  import opened Schema
  import opened UserGameModel
  import opened Backlog
  import ChatClient

  /** The placeholder of an empty section, or one game's entry. */
  datatype Item =
    | NoGames
    | WantToPlayItem(gameId: Id)
    | PlayedItem(gameId: Id, rating: int)

  /** The buttons of an entry; a want-to-play entry shows the rating as "pending". */
  datatype Action =
    | MarkAsPlayed(gameId: Id)
    | OpenEditRating(gameId: Id, currentRating: int)
    | OpenRemove(gameId: Id)

  function Actions(item: Item): (acts: seq<Action>)
    ensures item.NoGames? <==> acts == []
    ensures item.WantToPlayItem? ==> acts == [MarkAsPlayed(item.gameId), OpenRemove(item.gameId)]
    ensures item.PlayedItem? ==> acts == [OpenEditRating(item.gameId, item.rating), OpenRemove(item.gameId)]
  {
    match item
    case NoGames => []
    case WantToPlayItem(g) => [MarkAsPlayed(g), OpenRemove(g)]
    case PlayedItem(g, r) => [OpenEditRating(g, r), OpenRemove(g)]
  }

  /** The name and the cover of an entry lead to the game's page. */
  function GameLink(item: Item): (link: Option<string>)
    ensures link.Some? <==> !item.NoGames?
  {
    if item.NoGames? then None else Some("/game/" + item.gameId)
  }

  /** The want-to-play section: one entry per game, or the placeholder alone. */
  function WantToPlaySection(games: seq<WantedGame>): (items: seq<Item>)
    ensures games == [] <==> items == [NoGames]
    ensures games != [] ==> |items| == |games|
    ensures games != [] ==> forall k :: 0 <= k < |games| ==> items[k] == WantToPlayItem(games[k].gameId)
  {
    if games == [] then [NoGames]
    else
      var items := seq(|games|, k requires 0 <= k < |games| => WantToPlayItem(games[k].gameId));
      assert items[0] != NoGames;
      items
  }

  /** The played section: one entry per game with its rating, or the placeholder alone. */
  function PlayedSection(games: seq<PlayedGame>): (items: seq<Item>)
    ensures games == [] <==> items == [NoGames]
    ensures games != [] ==> |items| == |games|
    ensures games != [] ==> forall k :: 0 <= k < |games| ==> items[k] == PlayedItem(games[k].gameId, games[k].rating)
  {
    if games == [] then [NoGames]
    else
      var items := seq(|games|, k requires 0 <= k < |games| => PlayedItem(games[k].gameId, games[k].rating));
      assert items[0] != NoGames;
      items
  }

  /** Fills the want-to-play section entry by entry. */
  method RenderWantToPlay(games: seq<WantedGame>) returns (items: seq<Item>)
    ensures items == WantToPlaySection(games)
  {
    if |games| == 0 {
      return [NoGames];
    }
    items := [];
    var i := 0;
    while i < |games|
      invariant 0 <= i <= |games|
      invariant |items| == i
      invariant forall k :: 0 <= k < i ==> items[k] == WantToPlayItem(games[k].gameId)
    {
      items := items + [WantToPlayItem(games[i].gameId)];
      i := i + 1;
    }
  }

  /** Fills the played section entry by entry. */
  method RenderPlayed(games: seq<PlayedGame>) returns (items: seq<Item>)
    ensures items == PlayedSection(games)
  {
    if |games| == 0 {
      return [NoGames];
    }
    items := [];
    var i := 0;
    while i < |games|
      invariant 0 <= i <= |games|
      invariant |items| == i
      invariant forall k :: 0 <= k < i ==> items[k] == PlayedItem(games[k].gameId, games[k].rating)
    {
      items := items + [PlayedItem(games[i].gameId, games[i].rating)];
      i := i + 1;
    }
  }

  /** The client-side check before a rating is sent: from 0 to 10 inclusive. */
  predicate RatingAccepted(rating: int)
  {
    rating >= 0 && rating <= 10
  }

  lemma OwnedIsFound(rs: seq<UserGame>, user: Id, x: UserGame)
    requires x in OwnedBy(rs, user)
    ensures Find(rs, user, x.game).Some?
  {
    var i :| 0 <= i < |rs| && rs[i] == x;
    assert IsFor(rs[i], user, x.game);
  }

  /**
   * Every button on a freshly loaded page names a game the user has a
   * record for, so marking it played or removing it does not answer "not found".
   */
  lemma ActionsTargetOwnedRecords(rs: seq<UserGame>, user: Id, item: Item, a: Action)
    requires item in WantToPlaySection(Lists(rs, user).wantToPlayGames) ||
             item in PlayedSection(Lists(rs, user).playedGames)
    requires a in Actions(item)
    ensures Find(rs, user, a.gameId).Some?
  {
    var lists := Lists(rs, user);
    var owned := OwnedBy(rs, user);
    if item in WantToPlaySection(lists.wantToPlayGames) && !item.NoGames? {
      var k :| 0 <= k < |lists.wantToPlayGames| && item == WantToPlayItem(lists.wantToPlayGames[k].gameId);
      assert lists.wantToPlayGames[k] in WantedGames(owned);
      var x :| x in owned && x.wantToPlay && lists.wantToPlayGames[k] == WantedGame(x.game);
      OwnedIsFound(rs, user, x);
    } else if !item.NoGames? {
      var k :| 0 <= k < |lists.playedGames| && item == PlayedItem(lists.playedGames[k].gameId, lists.playedGames[k].rating);
      assert lists.playedGames[k] in PlayedGames(owned);
      var x :| x in owned && x.played && lists.playedGames[k] == PlayedGame(x.game, x.rating);
      OwnedIsFound(rs, user, x);
    }
  }

  /** A game in the played section is not also offered as want-to-play. */
  lemma SectionsDisjoint(rs: seq<UserGame>, user: Id, game: Id, rating: int)
    requires ValidTable(rs)
    requires PlayedItem(game, rating) in PlayedSection(Lists(rs, user).playedGames)
    ensures WantToPlayItem(game) !in WantToPlaySection(Lists(rs, user).wantToPlayGames)
  {
    var lists := Lists(rs, user);
    var k :| 0 <= k < |lists.playedGames| && PlayedItem(game, rating) == PlayedItem(lists.playedGames[k].gameId, lists.playedGames[k].rating);
    assert PlayedGame(game, rating) in lists.playedGames;
    ListsDisjoint(rs, user, game, rating);
    var wanted := lists.wantToPlayGames;
    var items := WantToPlaySection(wanted);
    forall j | 0 <= j < |items| ensures items[j] != WantToPlayItem(game) {
      if wanted != [] {
        assert wanted[j] in wanted;
      }
    }
  }

  /** The link of an entry opens the chat room of that very game. */
  lemma GameLinkOpensRoom(item: Item)
    requires !item.NoGames? && '/' !in item.gameId
    ensures ChatClient.LastSegment(GameLink(item).value) == item.gameId
  {
    assert "/game/" + item.gameId == "/game" + "/" + item.gameId;
    ChatClient.LastSegmentOfGamePath("/game", item.gameId);
  }

  class ProfilePageState {
    var wantToPlay: seq<Item>
    var played: seq<Item>
    /** The text of the error dialog, once one has been shown. */
    var error: Option<string>
    /** Where the page has sent the browser, if anywhere. */
    var location: Option<string>
    /** The hidden fields and the input of the two dialogs. */
    var ratingGameId: Id
    var ratingInput: int
    var ratingDialogOpen: bool
    var removeGameId: Id
    var removeDialogOpen: bool

    constructor ()
      ensures wantToPlay == [] && played == [] && error == None && location == None
      ensures !ratingDialogOpen && !removeDialogOpen
    {
      wantToPlay := [];
      played := [];
      error := None;
      location := None;
      ratingGameId := "";
      ratingInput := 0;
      ratingDialogOpen := false;
      removeGameId := "";
      removeDialogOpen := false;
    }

    /**
     * `loadUserGames`: without a token, or when the lists cannot be read,
     * the browser goes to the login page; otherwise both sections are rebuilt.
     */
    method LoadUserGames(store: BacklogStore, token: Option<Id>, userExists: bool)
      modifies this
      ensures token.None? || !userExists ==>
        location == Some("/login") && wantToPlay == old(wantToPlay) && played == old(played)
      ensures token.Some? && userExists ==>
        && wantToPlay == WantToPlaySection(Lists(store.records, token.value).wantToPlayGames)
        && played == PlayedSection(Lists(store.records, token.value).playedGames)
        && location == old(location)
      ensures error == old(error) && ratingDialogOpen == old(ratingDialogOpen) && removeDialogOpen == old(removeDialogOpen)
      ensures ratingGameId == old(ratingGameId) && ratingInput == old(ratingInput) && removeGameId == old(removeGameId)
    {
      if token.None? {
        location := Some("/login");
        return;
      }
      var r := store.GetUserGames(token.value, userExists);
      match r
      case Failure(_) =>
        location := Some("/login");
      case Success(lists) =>
        wantToPlay := RenderWantToPlay(lists.wantToPlayGames);
        played := RenderPlayed(lists.playedGames);
    }

    /** `markAsPlayed`: on success the sections are reloaded, otherwise an error is shown. */
    method MarkAsPlayed(store: BacklogStore, user: Id, userExists: bool, gameId: Id)
      requires store.Valid()
      modifies this, store
      ensures store.Valid()
      ensures store.records == AfterMarkPlayed(old(store.records), user, gameId)
      ensures old(Find(store.records, user, gameId)).None? ==>
        && error == Some("Failed to mark game as played")
        && wantToPlay == old(wantToPlay) && played == old(played) && location == old(location)
      ensures old(Find(store.records, user, gameId)).Some? && userExists ==>
        && wantToPlay == WantToPlaySection(Lists(store.records, user).wantToPlayGames)
        && played == PlayedSection(Lists(store.records, user).playedGames)
        && error == old(error) && location == old(location)
      ensures old(Find(store.records, user, gameId)).Some? && !userExists ==>
        && location == Some("/login")
        && wantToPlay == old(wantToPlay) && played == old(played) && error == old(error)
      ensures ratingDialogOpen == old(ratingDialogOpen) && ratingGameId == old(ratingGameId) && ratingInput == old(ratingInput)
      ensures removeDialogOpen == old(removeDialogOpen) && removeGameId == old(removeGameId)
    {
      var resp := store.MarkPlayed(user, gameId);
      if resp.Ok? {
        LoadUserGames(store, Some(user), userExists);
      } else {
        error := Some("Failed to mark game as played");
      }
    }

    /** `openEditRatingModal`: the dialog opens holding the game and its current rating. */
    method OpenEditRatingDialog(gameId: Id, currentRating: int)
      modifies this
      ensures ratingDialogOpen && ratingGameId == gameId && ratingInput == currentRating
      ensures wantToPlay == old(wantToPlay) && played == old(played) && error == old(error) && location == old(location)
      ensures removeDialogOpen == old(removeDialogOpen) && removeGameId == old(removeGameId)
    {
      ratingInput := currentRating;
      ratingGameId := gameId;
      ratingDialogOpen := true;
    }

    /** The user types a new rating into the dialog. */
    method EnterRating(rating: int)
      modifies this
      ensures ratingInput == rating
      ensures ratingGameId == old(ratingGameId) && ratingDialogOpen == old(ratingDialogOpen)
      ensures wantToPlay == old(wantToPlay) && played == old(played) && error == old(error) && location == old(location)
      ensures removeDialogOpen == old(removeDialogOpen) && removeGameId == old(removeGameId)
    {
      ratingInput := rating;
    }

    /**
     * `submitEditRating`: a rating outside 0..10 is refused on the page and
     * no request is made; otherwise the store is asked, and on success the
     * dialog closes and the sections are reloaded.
     */
    method SubmitEditRating(store: BacklogStore, user: Id, userExists: bool)
      requires store.Valid()
      modifies this, store
      ensures store.Valid()
      ensures !RatingAccepted(old(ratingInput)) ==>
        && store.records == old(store.records)
        && error == Some("Please enter a valid rating (0-10)")
        && ratingDialogOpen == old(ratingDialogOpen)
        && wantToPlay == old(wantToPlay) && played == old(played) && location == old(location)
      ensures RatingAccepted(old(ratingInput)) ==>
        store.records == AfterRating(old(store.records), user, old(ratingGameId), old(ratingInput))
      ensures RatingAccepted(old(ratingInput)) && old(Find(store.records, user, ratingGameId)).None? ==>
        && error == Some("Failed to update rating")
        && ratingDialogOpen == old(ratingDialogOpen)
        && wantToPlay == old(wantToPlay) && played == old(played) && location == old(location)
      ensures RatingAccepted(old(ratingInput)) && old(Find(store.records, user, ratingGameId)).Some? && userExists ==>
        && !ratingDialogOpen
        && wantToPlay == WantToPlaySection(Lists(store.records, user).wantToPlayGames)
        && played == PlayedSection(Lists(store.records, user).playedGames)
        && error == old(error) && location == old(location)
      ensures RatingAccepted(old(ratingInput)) && old(Find(store.records, user, ratingGameId)).Some? && !userExists ==>
        && !ratingDialogOpen
        && location == Some("/login")
        && wantToPlay == old(wantToPlay) && played == old(played) && error == old(error)
      ensures ratingGameId == old(ratingGameId) && ratingInput == old(ratingInput)
      ensures removeDialogOpen == old(removeDialogOpen) && removeGameId == old(removeGameId)
    {
      if RatingAccepted(ratingInput) {
        var resp := store.SetRating(user, ratingGameId, ratingInput);
        if resp.Ok? {
          ratingDialogOpen := false;
          LoadUserGames(store, Some(user), userExists);
        } else {
          error := Some("Failed to update rating");
        }
      } else {
        error := Some("Please enter a valid rating (0-10)");
      }
    }

    /** `openRemoveModal`: the confirmation dialog opens holding the game. */
    method OpenRemoveDialog(gameId: Id)
      modifies this
      ensures removeDialogOpen && removeGameId == gameId
      ensures wantToPlay == old(wantToPlay) && played == old(played) && error == old(error) && location == old(location)
      ensures ratingDialogOpen == old(ratingDialogOpen) && ratingGameId == old(ratingGameId) && ratingInput == old(ratingInput)
    {
      removeGameId := gameId;
      removeDialogOpen := true;
    }

    /** `confirmRemoveGame`: on success the dialog closes and the sections are reloaded. */
    method ConfirmRemoveGame(store: BacklogStore, user: Id, userExists: bool)
      requires store.Valid()
      modifies this, store
      ensures store.Valid()
      ensures store.records == AfterRemove(old(store.records), user, old(removeGameId))
      ensures old(Find(store.records, user, removeGameId)).None? ==>
        && error == Some("Failed to remove game")
        && removeDialogOpen == old(removeDialogOpen)
        && wantToPlay == old(wantToPlay) && played == old(played) && location == old(location)
      ensures old(Find(store.records, user, removeGameId)).Some? && userExists ==>
        && !removeDialogOpen
        && wantToPlay == WantToPlaySection(Lists(store.records, user).wantToPlayGames)
        && played == PlayedSection(Lists(store.records, user).playedGames)
        && error == old(error) && location == old(location)
      ensures old(Find(store.records, user, removeGameId)).Some? && !userExists ==>
        && !removeDialogOpen
        && location == Some("/login")
        && wantToPlay == old(wantToPlay) && played == old(played) && error == old(error)
      ensures removeGameId == old(removeGameId)
      ensures ratingDialogOpen == old(ratingDialogOpen) && ratingGameId == old(ratingGameId) && ratingInput == old(ratingInput)
    {
      var resp := store.Remove(user, removeGameId);
      if resp.Ok? {
        removeDialogOpen := false;
        LoadUserGames(store, Some(user), userExists);
      } else {
        error := Some("Failed to remove game");
      }
    }

    /** `closeModal`. */
    method CloseRatingDialog()
      modifies this
      ensures !ratingDialogOpen && ratingGameId == old(ratingGameId) && ratingInput == old(ratingInput)
      ensures wantToPlay == old(wantToPlay) && played == old(played) && error == old(error) && location == old(location)
      ensures removeDialogOpen == old(removeDialogOpen) && removeGameId == old(removeGameId)
    {
      ratingDialogOpen := false;
    }

    method CloseRemoveDialog()
      modifies this
      ensures !removeDialogOpen && removeGameId == old(removeGameId)
      ensures wantToPlay == old(wantToPlay) && played == old(played) && error == old(error) && location == old(location)
      ensures ratingDialogOpen == old(ratingDialogOpen) && ratingGameId == old(ratingGameId) && ratingInput == old(ratingInput)
    {
      removeDialogOpen := false;
    }
  }
}
