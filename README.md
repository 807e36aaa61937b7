# GamingBacklog — a verified model of the backlog, catalog and chat core

GamingBacklog is a small web application. Users browse a shared catalog of
video games, keep a personal backlog in which each game is "played" (with a
0–10 rating) or "want to play", and chat about a game in a per-game room.
This project models the core of that application in Dafny and proves what
it promises:

- **Documents** (`game_model.dfy`, `message_model.dfy`, `user_game_model.dfy`,
  `schema.dfy`): the Game, Message and UserGame schemas with their required
  fields, defaults and the 0–10 rating bounds. Validation on save is a
  function that either stores the document or names every failing field.
- **Catalog listing** (`catalog.dfy`): `GET /games`, with its case-insensitive
  name filter, the four sort keywords and the `name_asc` fallback, page and
  limit defaults, skip/limit paging applied after sorting, and the total count
  of matching games.
- **Backlog store** (`backlog.dfy`): the UserGame records keyed by
  (user, game), and the handlers that set a status, rate, mark as played,
  remove, list a user's two lists and delete an account. Each handler is an
  imperative method on `BacklogStore`, proved equal to a table function. The
  table invariant (one record per pair, schema-valid, never both flags) is
  proved to be preserved.
- **Chat broker** (`room_broker.dfy`): socket rooms as a membership map, the
  append-only message store, the newest-first history sent on `join`, and the
  broadcast of a stored message to every member of its room.
- **Catalog page** (`catalog_page.dfy`): the browser state of the catalog
  page: the request it builds, the game items with their two status buttons,
  the clamped page, and the First/Previous/numbers/Next/Last pagination bar.
- **Profile page** (`profile_page.dfy`): the two sections, the placeholder of
  an empty one, and the mark-played, edit-rating and remove actions, each of
  which reloads the sections on success.
- **Game page chat** (`chat_client.dfy`): the room taken from the URL path,
  JavaScript `trim`, the mention highlight, the history replacing the view,
  and new messages being prepended.

`strings.dfy` (ASCII lower-casing, substring search, lexicographic order),
`sorting.dfy` (a stable insertion sort over a total preorder) and
`wrappers.dfy` (`Option`, `Result`) are shared helpers.

External effects become parameters:
- the current time is `now`;
- in the chat broker, whether the store's fetch or save succeeds is a `bool`;
- on the game page, whether `/game-info` answers with JSON is a `bool`;
- whether the user named by a token still exists is `userExists`;
- the stored token is an `Option<Id>`.

Elsewhere the store and the network are taken never to fail; see "Left out".

## Model

| member | source | states |
|---|---|---|
| Strings.LowerChar | public/js/add_game.js:292 | upper-case ASCII letters map to their lower-case letters; every other character is unchanged |
| Strings.Lower | public/js/add_game.js:292 | lower-casing keeps the length and lower-cases each character in place |
| Strings.LowerIdempotent | public/js/add_game.js:292 | lower-casing an already lower-cased text changes nothing |
| Strings.ContainsIff | public/js/game.js:58 | the recursive substring search holds exactly when the pattern occurs at some index |
| Strings.LowerPatternIrrelevant | app.js:482 | in a case-insensitive match, lower-casing the pattern first does not change the outcome |
| Strings.StrLeTotal | app.js:478 | any two names are comparable in the name order |
| Strings.StrLeTransitive | app.js:478 | the name order is transitive |
| Sorting.Insert | app.js:485 | inserting adds exactly the one element (as a multiset) |
| Sorting.Sort | app.js:485 | sorting returns a permutation of its input |
| Sorting.InsertSorted | app.js:485 | inserting into a sorted sequence keeps it sorted |
| Sorting.SortSorted | app.js:485 | the result of sorting is in order under any total preorder |
| GameModel.CreateGame | models/Game.js:3-29 | a game is stored iff name, cover, genre, release date, description and owner are all given; the stored fields are the given ones; otherwise the error names exactly the missing fields |
| GameModel.CreateGameRoundTrip | models/Game.js:3-29 | every valid game is exactly what creating it from its own fields stores |
| GameModel.AddGame | app.js:277-309 | no cover file gives "cover required" and stores nothing; a created game is valid and owned by the requesting user; with a cover, creation succeeds iff every other field is given |
| MessageModel.CreateMessage | models/Message.js:3-22 | a message is stored iff sender, text and game id are given; the timestamp defaults to the current time; otherwise the error names the missing fields |
| MessageModel.CreateMessageRoundTrip | models/Message.js:3-22 | a valid message is stored exactly as given, whatever the clock says |
| UserGameModel.Save | models/UserGame.js:3-28 | saving succeeds iff user and game are set and the rating is within 0..10; a saved document is unchanged; otherwise each failing path is reported |
| UserGameModel.CreateUserGame | models/UserGame.js:3-28 | defaults are rating 0 and both flags false, then validation; success iff user and game are given and any given rating is in range |
| UserGameModel.CreateUserGameRoundTrip | models/UserGame.js:3-28 | a valid document with every field supplied is stored as given |
| Catalog.ParseSort | app.js:466-480 | any keyword other than the four recognised ones sorts by name, ascending |
| Catalog.ParseKeyword | app.js:466-480 | each of the four sort options is reached by its own keyword |
| Catalog.KeyLeTotalPreorder | app.js:466-480 | ordering games by name or by release date is total and transitive |
| Catalog.PrecedesTotalPreorder | app.js:466-480 | each of the four sort orders is a total preorder |
| Catalog.Filter | app.js:482 | keeps exactly the catalog games whose name matches the query; no query or an empty one keeps all |
| Catalog.FilterSelects | app.js:482 | the result is the catalog read at strictly increasing positions, exactly those of the matching games: each match once, in catalog order |
| Catalog.Window | app.js:483-484 | the page is the slice after `skip`; a limit of 0 means no limit and a negative limit counts by its size; the page holds no more than the limit |
| Catalog.ListGames | app.js:461-496 | fails (server error) iff the computed skip is negative; the total is the number of matching games; a page holds at most the limit |
| Catalog.PageIsWindow | app.js:482-485 | the k-th listed game is the (skip+k)-th game of the filtered catalog in the requested order |
| Catalog.ListedGamesMatch | app.js:482 | every listed game is in the catalog and matches the name filter |
| Catalog.ListedGamesSorted | app.js:485 | a listed page is in the requested sort order |
| Catalog.TotalIgnoresPaging | app.js:487 | the total depends only on the query, not on page, limit or sort |
| Catalog.UnknownSortIsNameAsc | app.js:477-479 | a missing or unknown sort keyword gives the same listing as `name_asc` |
| Catalog.FullPage | app.js:463-485 | a page lying wholly inside the matches holds exactly `limit` games |
| Catalog.FirstPageSize | app.js:463-485 | the first page holds min(matches, limit) games |
| Backlog.Find | app.js:367 | `findOne` on a (user, game) pair gives the first matching record, or nothing iff no record matches |
| Backlog.SaveAt | app.js:392 | a modified record replaces the old one only if it validates; every other record stays |
| Backlog.ApplyStatusIdempotent | app.js:383-389 | applying the same status twice to a record equals applying it once |
| Backlog.OwnedBy | app.js:314 | the records of a user are exactly the stored records with that user |
| Backlog.OwnedBySelects | app.js:314 | the result is the table read at strictly increasing positions, exactly those of the user's records: each once, in store order |
| Backlog.WithoutUser | app.js:267 | after `deleteMany({ user })` exactly the other users' records remain |
| Backlog.PlayedGames | app.js:332-345 | the played list has exactly the user's played records, with their ratings |
| Backlog.PlayedGamesSelects | app.js:332-345 | the played list has one entry per played record, with its game and rating, in the records' order |
| Backlog.WantedGames | app.js:333-352 | the want-to-play list has exactly the user's want-to-play records |
| Backlog.WantedGamesSelects | app.js:333-352 | the want-to-play list has one entry per want-to-play record, in the records' order |
| Backlog.FindAppend | app.js:369-377 | after a new record for a pair is appended, looking the pair up finds it at the end |
| Backlog.FindSaveAt | app.js:392 | saving a record in place keeps it as the pair's record |
| Backlog.StatusCreatesOneRecord | app.js:369-380 | a status request for a pair without a record appends one record: rating 1, played iff "played", want-to-play iff "to-play" |
| Backlog.StatusUpdatesInPlace | app.js:381-393 | a status request for a pair with a record changes only that record's flags |
| Backlog.AfterStatusValid | app.js:362-398 | a status request preserves the table invariant: unique pairs, valid records, never both flags |
| Backlog.AfterStatusIdempotent | app.js:362-398 | repeating a status request leaves the table as the first request left it |
| Backlog.StatusResult | app.js:362-398 | after a status request the pair has a record whose flags are exactly the requested status |
| Backlog.MarkPlayedIsPlayedStatus | app.js:439-459 | mark-played does to an existing record what a "played" status request does, and nothing otherwise |
| Backlog.AfterRatingValid | app.js:400-420 | a rating update preserves the invariant; an out-of-range rating stores nothing; an in-range one is stored on the pair's record |
| Backlog.AfterMarkPlayedValid | app.js:439-459 | mark-played preserves the table invariant |
| Backlog.RemoveDeletesExactlyOne | app.js:422-437 | removing deletes the pair's one record and keeps every other record |
| Backlog.NotFoundLeavesTable | app.js:400-459 | rating, mark-played and remove leave the table unchanged when the pair has no record |
| Backlog.WithoutUserValid | app.js:260-275 | deleting an account's records preserves the table invariant |
| Backlog.WithoutUserOwned | app.js:267 | after account deletion the user owns nothing, and other users' lists are unchanged |
| Backlog.ListsDisjoint | app.js:332-333 | under the invariant no game is on both of a user's lists |
| Backlog.BacklogStore.constructor | models/UserGame.js:30 | the store starts empty and valid |
| Backlog.BacklogStore.SetStatus | app.js:362-398 | the new table is the status-request table; the reply says "added as" for a new pair and "status updated to" for an existing one; a server error exactly when creation fails validation |
| Backlog.BacklogStore.SetRating | app.js:400-420 | the new table is the rating-update table; not found iff the pair has no record; a server error iff the rating is outside 0..10 |
| Backlog.BacklogStore.Remove | app.js:422-437 | the new table is the one-record deletion; not found iff the pair has no record |
| Backlog.BacklogStore.MarkPlayed | app.js:439-459 | the new table has the pair's record played and not wanted; not found iff the pair has no record |
| Backlog.BacklogStore.DeleteAccount | app.js:260-275 | an existing user's records are all removed and the reply says the account is deleted; an unknown user gets not found and nothing changes |
| Backlog.BacklogStore.GetUserGames | app.js:322-360 | an unknown user gets not found; otherwise the reply is the user's played and want-to-play lists |
| Backlog.BacklogStore.UserAdded | app.js:311-320 | the reply is every record of the user |
| RoomBroker.NewerOrSameTotalPreorder | app.js:94 | ordering by descending timestamp is a total preorder |
| RoomBroker.InRoom | app.js:91-94 | the room's messages are exactly the stored messages with that game id |
| RoomBroker.HistoryNewestFirst | app.js:91-95 | the history is newest first and holds every message of the room and nothing else |
| RoomBroker.InRoomAppend | app.js:110 | storing a message appends it to its own room's messages only |
| RoomBroker.HistoryAfterStore | app.js:101-111 | a stored message joins its room's history and no other |
| RoomBroker.HistoryAfterStores | app.js:101-111 | after n messages are stored in a room its history is n longer |
| RoomBroker.MembersAfterJoin | app.js:85-87 | joining adds the connection to that room's members and changes no other room |
| RoomBroker.MembersAfterDisconnect | app.js:117-119 | a disconnected connection leaves every room; other members stay |
| RoomBroker.Broker.constructor | app.js:83 | no rooms and no messages at start |
| RoomBroker.Broker.Join | app.js:85-99 | the connection enters the room; a successful fetch returns the room's newest-first history, and a failed one returns nothing |
| RoomBroker.Broker.SendMessage | app.js:101-115 | a message that validates and saves is appended to the store and delivered to every member of its room; otherwise nothing is stored or sent |
| RoomBroker.Broker.Disconnect | app.js:117-119 | the connection is removed from every room; the store is unchanged |
| CatalogPage.TotalPages | public/js/add_game.js:198 | the page count is the ceiling of games / 5 |
| CatalogPage.ClampPage | public/js/add_game.js:200-206 | the page is raised to 1 and then lowered to the page count; with no pages the result is 0 |
| CatalogPage.WindowShape | public/js/add_game.js:208-221 | the numbered pages are min(3, pages) consecutive pages within range, and include the current page |
| CatalogPage.FirstIffPageOneHidden | public/js/add_game.js:223-233 | "First" is shown exactly when page 1 has no numbered button |
| CatalogPage.LastIffLastPageHidden | public/js/add_game.js:278-288 | "Last" is shown exactly when the last page has no numbered button |
| CatalogPage.PreviousNextVisibility | public/js/add_game.js:235-276 | "Previous" is shown iff there is an earlier page, and "Next" iff there is a later one |
| CatalogPage.NoControlsWithoutGames | public/js/add_game.js:192-289 | with no games the bar is empty |
| CatalogPage.PageButtonInWindow | public/js/add_game.js:249-264 | every numbered button is a page in 1..pages |
| CatalogPage.ExactlyCurrentActive | public/js/add_game.js:255-257 | a numbered button is marked active iff it is the current page |
| CatalogPage.NumberButtons | public/js/add_game.js:249-264 | the loop emits one button per window page inside 1..pages, in order, the current one active |
| CatalogPage.DrawBar | public/js/add_game.js:208-288 | the bar drawn is First, Previous, the numbered buttons, Next and Last, each under its own condition |
| CatalogPage.ButtonsFor | public/js/add_game.js:62-64 | a status button is disabled iff one of the user's records for the game has that flag |
| CatalogPage.DisplayGames | public/js/add_game.js:52-102 | one item per listed game, in order, each with its buttons |
| CatalogPage.ButtonsReflectBacklog | public/js/add_game.js:62-64 | the buttons show exactly the flags of the user's record for the game |
| CatalogPage.ButtonsAfterStatus | public/js/add_game.js:129-138 | after a successful "played" (or "to-play") request a reload draws the same buttons the page sets locally |
| CatalogPage.CatalogPageState.constructor | public/js/add_game.js:1-6 | the page starts at page 1, with no search text and `name_asc` order |
| CatalogPage.CatalogPageState.GamesRequest | public/js/add_game.js:17-20 | the request carries the query iff the search text is non-empty, plus the current page, limit 5 and the sort order |
| CatalogPage.CatalogPageState.SearchGames | public/js/add_game.js:291-296 | the search text is stored lower-cased and the page reset to 1 |
| CatalogPage.CatalogPageState.ChangeSortOrder | public/js/add_game.js:298-302 | the new order is stored and the page reset to 1 |
| CatalogPage.CatalogPageState.RenderPagination | public/js/add_game.js:192-289 | the current page is clamped in place and the bar drawn for it |
| CatalogPage.CatalogPageState.LoadGames | public/js/add_game.js:8-50 | without a token the browser goes to login; a failed listing draws nothing; otherwise the listed games are drawn with the user's records, then the bar for the clamped page |
| CatalogPage.CatalogPageState.HandleAdd | public/js/add_game.js:104-190 | without a token an error is shown and nothing is sent; on success the clicked button is disabled and the other enabled, as a reload would draw them; a failed request shows the error text and leaves every item as it was |
| CatalogPage.CatalogPageState.Click | public/js/add_game.js:228-287 | each control moves to its page: first, previous (not below 1), the number, next, last |
| CatalogPage.ClickStaysInRange | public/js/add_game.js:223-288 | a click on any drawn control of a clamped bar asks for a page within 1..pages |
| CatalogPage.LowerCasedSearchSameMatches | public/js/add_game.js:292 | lower-casing the search text does not change which games match |
| ChatClient.TrimStart | public/js/game.js:47 | only leading white space is removed, up to the first other character |
| ChatClient.TrimEnd | public/js/game.js:47 | only trailing white space is removed, back to the last other character |
| ChatClient.Trim | public/js/game.js:47 | the result is an infix whose ends are not white space, and everything cut off is white space |
| ChatClient.TrimEmptyIff | public/js/game.js:47-48 | a text trims to nothing iff it is all white space |
| ChatClient.TrimIdempotent | public/js/game.js:47 | trimming twice equals trimming once |
| ChatClient.LastSegment | public/js/game.js:2 | the room is the suffix after the last '/', contains no '/', and is the whole path if there is no '/' |
| ChatClient.LastSegmentOfGamePath | public/js/game.js:2 | the room taken from a path ending in "/id" is that id |
| ChatClient.MentionIff | public/js/game.js:58 | a message is highlighted iff "@" and the stored user name ("null" if unset) occurs in its text |
| ChatClient.RenderAll | public/js/game.js:31-36 | one line per message, in order received, each with its mention flag |
| ChatClient.ChatView.constructor | public/js/game.js:1-28 | the room is the path's last segment, joined once exactly when `/game-info` answers with JSON (a 404 `{ message }` included); the view starts empty |
| ChatClient.ChatView.OnPreviousMessages | public/js/game.js:31-36 | the history replaces the whole view |
| ChatClient.ChatView.OnNewMessage | public/js/game.js:39-42 | a new message goes on top of the view; the earlier lines stay in order below it |
| ChatClient.ChatView.TypeText | public/js/game.js:24 | the input field holds the typed text |
| ChatClient.ChatView.ClickSend | public/js/game.js:45-53 | a non-blank input is sent trimmed, with the room and user name, and the field cleared; a blank input sends nothing and keeps the field |
| ChatClient.ClientSendStorable | public/js/game.js:49 | what the client sends is stored iff the user name is set and the room is named |
| ChatClient.NewestFirstPreserved | public/js/game.js:39-42 | the view stays newest first when each new message is no older than those shown |
| ChatClient.ViewAfterJoin | public/js/game.js:28-36 | right after joining the view has one line per room message, newest first |
| ProfilePage.Actions | public/js/profile.js:35-86 | a want-to-play entry offers mark-as-played and remove; a played entry offers edit-rating (with its rating) and remove; the placeholder offers nothing |
| ProfilePage.GameLink | public/js/profile.js:52-57 | every entry but the placeholder links to its game page |
| ProfilePage.WantToPlaySection | public/js/profile.js:22-59 | one entry per want-to-play game, in order; the placeholder alone iff the list is empty |
| ProfilePage.PlayedSection | public/js/profile.js:61-97 | one entry per played game with its rating, in order; the placeholder alone iff the list is empty |
| ProfilePage.RenderWantToPlay | public/js/profile.js:22-59 | the loop builds exactly the want-to-play section |
| ProfilePage.RenderPlayed | public/js/profile.js:61-97 | the loop builds exactly the played section |
| ProfilePage.OwnedIsFound | app.js:330 | a record in a user's list is found for that (user, game) pair |
| ProfilePage.ActionsTargetOwnedRecords | public/js/profile.js:107-178 | every button on a freshly loaded page names a game the user has a record for |
| ProfilePage.SectionsDisjoint | public/js/profile.js:22-97 | a game in the played section is not also in the want-to-play section |
| ProfilePage.GameLinkOpensRoom | public/js/profile.js:52-57 | an entry's link opens the chat room of that same game |
| ProfilePage.ProfilePageState.constructor | public/js/profile.js:1-7 | the page starts with empty sections, no error, no redirect and both dialogs closed |
| ProfilePage.ProfilePageState.LoadUserGames | public/js/profile.js:1-105 | without a token, or when the lists cannot be read, the browser goes to login; otherwise both sections are rebuilt from the user's lists |
| ProfilePage.ProfilePageState.MarkAsPlayed | public/js/profile.js:107-121 | the store marks the pair played; on success the sections show the new lists, or the browser goes to login if the user is gone; otherwise the error is shown and the sections stay; neither dialog changes |
| ProfilePage.ProfilePageState.OpenEditRatingDialog | public/js/profile.js:123-127 | the dialog opens holding the game and its current rating |
| ProfilePage.ProfilePageState.EnterRating | public/js/profile.js:133 | the dialog's input holds the typed rating |
| ProfilePage.ProfilePageState.SubmitEditRating | public/js/profile.js:129-155 | a rating outside 0..10 sends nothing and shows the error; otherwise the store is updated, and on success the dialog closes and the sections reload (or the browser goes to login if the user is gone); on failure the sections stay; the remove dialog never changes |
| ProfilePage.ProfilePageState.OpenRemoveDialog | public/js/profile.js:157-160 | the confirmation dialog opens holding the game |
| ProfilePage.ProfilePageState.ConfirmRemoveGame | public/js/profile.js:162-178 | the pair's record is removed; on success the dialog closes and the sections reload (or the browser goes to login if the user is gone); if the pair has no record the error is shown and the sections stay; the rating dialog never changes |
| ProfilePage.ProfilePageState.CloseRatingDialog | public/js/profile.js:180-182 | the rating dialog closes and nothing else changes |
| ProfilePage.ProfilePageState.CloseRemoveDialog | public/js/profile.js:180-182 | the remove dialog closes and nothing else changes |

## Left out

- Authentication is not modelled. That covers JWT signing and verification, bcrypt password hashing, login, registration, the User model and the settings handlers. A valid token is modelled as the user id it carries. An invalid or expired token is modelled like a missing one on the pages, and is not modelled on the server.
- File uploads and the filesystem are not modelled: multer, reading and unlinking the uploaded cover, and the image-serving routes.
- GameModel.AddGame: the cover is an opaque non-empty string, as the schema declares it. The handler passes an object (`data`, `contentType`) to that String field; how the ODM casts that object is not modelled.
- Catalog.Matches: the query is matched as a plain substring with ASCII case folding. The source hands it to the store as a regular expression, so regex metacharacters and non-ASCII case folding are not modelled.
- Catalog.ListGames: the query parameters are integers or absent. Non-numeric strings, `NaN`, fractional pages and string coercion are not modelled.
- Ids are strings; ObjectId casting and a malformed id, which makes the store throw, are not modelled.
- Backlog.PlayedGames: the joined game details (name, cover, genre, release date) from `populate` are not carried; the lists hold the game id and, for played games, the rating.
- Backlog.BacklogStore: the store's order of unsorted `find` results is taken to be insertion order. The `createdAt`/`updatedAt` timestamps the schema adds are not modelled.
- ProfilePage.ProfilePageState.SubmitEditRating: the rating is an integer. The page compares the input's string with JavaScript coercion, so an empty or non-numeric input is not modelled.
- ChatClient.ChatView: the stored user name is read once when the page loads; the source reads it again at each click and each render.
- CatalogPage.CatalogPageState.HandleAdd: the buttons of the clicked item are updated. The source enables the first button on the page with that game id, which is the same item when the listed games are distinct.
- RoomBroker.Broker: timestamps are integers and sockets are connection numbers. Concurrency between handlers, network failures beyond the modelled success flags, and the order in which broadcasts arrive are not modelled.
- RoomBroker.History and Catalog.ListGames: among messages with equal timestamps, and among games with equal names or release dates, the order is the stable order of the sort used here. The store promises no order for ties, so which of two tied games lands on a page boundary is not determined there.
- Strings.Lower, Strings.LowerChar and CatalogPage.CatalogPageState.SearchGames fold only ASCII letters. JavaScript `toLowerCase` folds all of Unicode and can change a text's length (for example "İ"); that is not modelled.
- CatalogPage.CatalogPageState.GamesRequest: the search text is taken to need no URL encoding. The page puts it into the query string as typed, so `&`, `#`, `+`, `%` or `=` in it would change or cut the query the server sees; that is not modelled.
- Store and network failures outside the chat broker are not modelled. The backlog handlers answer a thrown store error with a server error (500), `loadGames` logs a failed fetch and draws nothing, and the profile actions show their error text on any non-OK reply and leave the page as it was when the fetch itself fails (they do not catch it). The model takes these operations to reach the store and the store to answer.
- Date and time formatting (`toLocaleDateString`, `toLocaleTimeString`), HTML markup, scrolling, and the remaining page scripts are not modelled. Those scripts are create_game.js, error_modal.js, header_info.js, login.js, logout.js, register.js and settings.js.
- Closing the pages' error dialog is not modelled; an error is recorded as the text last shown.
