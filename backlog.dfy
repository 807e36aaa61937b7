/**
 * The backlog: the UserGame records of every user, keyed by the pair
 * (user, game), and the requests that create, change, list and delete them.
 * The table functions below say what each request leaves in the store; the
 * class `BacklogStore` performs the requests step by step as the handlers do.
 */
module Backlog {
  import opened Wrappers
  import opened Schema
  import opened UserGameModel
  import opened Selection

  predicate IsFor(r: UserGame, user: Id, game: Id)
  {
    r.user == user && r.game == game
  }

  /** The store's `findOne` on a (user, game) pair: the first record for it. */
  function Find(rs: seq<UserGame>, user: Id, game: Id): (i: Option<nat>)
    ensures i.Some? ==> i.value < |rs| && IsFor(rs[i.value], user, game)
    ensures i.Some? ==> forall j :: 0 <= j < i.value ==> !IsFor(rs[j], user, game)
    ensures i.None? <==> forall j :: 0 <= j < |rs| ==> !IsFor(rs[j], user, game)
  {
    if rs == [] then None
    else if IsFor(rs[0], user, game) then Some(0)
    else
      match Find(rs[1..], user, game)
      case None => None
      case Some(k) => Some(k + 1)
  }

  /** No (user, game) pair has two records. */
  predicate UniquePairs(rs: seq<UserGame>)
  {
    forall i, j :: 0 <= i < j < |rs| ==> !IsFor(rs[j], rs[i].user, rs[i].game)
  }

  /** The two status flags are never both set. */
  predicate Exclusive(r: UserGame)
  {
    !(r.played && r.wantToPlay)
  }

  /** The invariant of the table: unique pairs, schema-valid and exclusive records. */
  predicate ValidTable(rs: seq<UserGame>)
  {
    UniquePairs(rs) && forall r :: r in rs ==> ValidUserGame(r) && Exclusive(r)
  }

  /** Under `UniquePairs` two records for the same pair are the same record. */
  lemma SamePairSameIndex(rs: seq<UserGame>, i: int, j: int)
    requires UniquePairs(rs)
    requires 0 <= i < |rs| && 0 <= j < |rs|
    requires IsFor(rs[j], rs[i].user, rs[i].game)
    ensures i == j
  {
  }

  lemma UniqueTail(rs: seq<UserGame>)
    requires UniquePairs(rs) && rs != []
    ensures UniquePairs(rs[1..])
    ensures forall y :: y in rs[1..] ==> !IsFor(y, rs[0].user, rs[0].game)
  {
    forall i, j | 0 <= i < j < |rs[1..]| ensures !IsFor(rs[1..][j], rs[1..][i].user, rs[1..][i].game) {
      assert rs[1..][i] == rs[i + 1] && rs[1..][j] == rs[j + 1];
    }
    forall y | y in rs[1..] ensures !IsFor(y, rs[0].user, rs[0].game) {
      var k :| 0 <= k < |rs[1..]| && rs[1..][k] == y;
      assert rs[k + 1] == y;
    }
  }

  lemma UniqueCons(x: UserGame, t: seq<UserGame>)
    requires UniquePairs(t)
    requires forall y :: y in t ==> !IsFor(y, x.user, x.game)
    ensures UniquePairs([x] + t)
  {
    var r := [x] + t;
    forall i, j | 0 <= i < j < |r| ensures !IsFor(r[j], r[i].user, r[i].game) {
      assert r[j] == t[j - 1];
      if i > 0 {
        assert r[i] == t[i - 1];
      }
    }
  }

  /** The flags a status request sets on an existing record. */
  function ApplyStatus(r: UserGame, status: string): UserGame
  {
    if status == "played" then r.(played := true, wantToPlay := false)
    else if status == "to-play" then r.(wantToPlay := true, played := false)
    else r
  }

  /** Repeating a status request on a record changes nothing more. */
  lemma ApplyStatusIdempotent(r: UserGame, status: string)
    ensures ApplyStatus(ApplyStatus(r, status), status) == ApplyStatus(r, status)
  {
  }

  /** The record a status request creates for a pair that has none. */
  function NewRecordDraft(user: Id, game: Id, status: string): UserGameDraft
  {
    UserGameDraft(Some(user), Some(game), Some(1), Some(status == "played"), Some(status == "to-play"))
  }

  /** Replaces record `i` by `r` if the schema accepts `r`; otherwise the table stays. */
  function SaveAt(rs: seq<UserGame>, i: nat, r: UserGame): (rs': seq<UserGame>)
    requires i < |rs|
    ensures |rs'| == |rs|
    ensures forall j :: 0 <= j < |rs| && j != i ==> rs'[j] == rs[j]
    ensures rs'[i] == if ValidUserGame(r) then r else rs[i]
  {
    if Save(r).Success? then rs[i := r] else rs
  }

  /** The table after a status request (`POST /user-games`). */
  function AfterStatus(rs: seq<UserGame>, user: Id, game: Id, status: string): seq<UserGame>
  {
    match Find(rs, user, game)
    case None =>
      (match CreateUserGame(NewRecordDraft(user, game, status))
       case Success(r) => rs + [r]
       case Failure(_) => rs)
    case Some(i) => SaveAt(rs, i, ApplyStatus(rs[i], status))
  }

  /** The table after a rating update. */
  function AfterRating(rs: seq<UserGame>, user: Id, game: Id, rating: int): seq<UserGame>
  {
    match Find(rs, user, game)
    case None => rs
    case Some(i) => SaveAt(rs, i, rs[i].(rating := rating))
  }

  /** The table after mark-played. */
  function AfterMarkPlayed(rs: seq<UserGame>, user: Id, game: Id): seq<UserGame>
  {
    match Find(rs, user, game)
    case None => rs
    case Some(i) => SaveAt(rs, i, rs[i].(played := true, wantToPlay := false))
  }

  /** The table after `deleteOne` on the pair. */
  function AfterRemove(rs: seq<UserGame>, user: Id, game: Id): seq<UserGame>
  {
    match Find(rs, user, game)
    case None => rs
    case Some(i) => rs[..i] + rs[i + 1..]
  }

  /** The owner test on records. */
  function OfUser(user: Id): UserGame -> bool
  {
    (x: UserGame) => x.user == user
  }

  /** Each kept record is listed as it is. */
  function Same(x: UserGame): UserGame { x }

  /** The records of one user (`find({ user })`): each of them once, in store order. */
  function OwnedBy(rs: seq<UserGame>, user: Id): (r: seq<UserGame>)
    ensures forall x :: x in r <==> x in rs && x.user == user
    ensures |r| <= |rs|
  {
    if rs == [] then []
    else if rs[0].user == user then [rs[0]] + OwnedBy(rs[1..], user)
    else OwnedBy(rs[1..], user)
  }

  /** OwnedBy keeps each of the user's records exactly once, in store order. */
  lemma {:induction false} OwnedBySelects(rs: seq<UserGame>, user: Id)
    ensures exists idx :: Picks(OwnedBy(rs, user), rs, OfUser(user), Same, idx)
  {
    if rs == [] {
      assert Picks(OwnedBy(rs, user), rs, OfUser(user), Same, []);
    } else {
      OwnedBySelects(rs[1..], user);
      var idx :| Picks(OwnedBy(rs[1..], user), rs[1..], OfUser(user), Same, idx);
      assert [rs[0]] + rs[1..] == rs;
      if OfUser(user)(rs[0]) {
        assert OwnedBy(rs, user) == [Same(rs[0])] + OwnedBy(rs[1..], user);
        PicksConsKept(rs[0], rs[1..], OwnedBy(rs[1..], user), OfUser(user), Same, idx);
        assert Picks(OwnedBy(rs, user), rs, OfUser(user), Same, [0] + Shift(idx));
      } else {
        PicksConsSkipped(rs[0], rs[1..], OwnedBy(rs[1..], user), OfUser(user), Same, idx);
        assert Picks(OwnedBy(rs, user), rs, OfUser(user), Same, Shift(idx));
      }
    }
  }

  /** The table after `deleteMany({ user })`. */
  function WithoutUser(rs: seq<UserGame>, user: Id): (r: seq<UserGame>)
    ensures forall x :: x in r <==> x in rs && x.user != user
    ensures |r| <= |rs|
  {
    if rs == [] then []
    else if rs[0].user != user then [rs[0]] + WithoutUser(rs[1..], user)
    else WithoutUser(rs[1..], user)
  }

  datatype PlayedGame = PlayedGame(gameId: Id, rating: int)
  datatype WantedGame = WantedGame(gameId: Id)
  datatype UserGamesLists = UserGamesLists(playedGames: seq<PlayedGame>, wantToPlayGames: seq<WantedGame>)

  /** The played test on records. */
  function IsPlayed(x: UserGame): bool { x.played }

  /** A record's entry in the played list. */
  function PlayedEntry(x: UserGame): PlayedGame { PlayedGame(x.game, x.rating) }

  /** The played list: one entry per played record, with its rating, in store order. */
  function PlayedGames(owned: seq<UserGame>): (r: seq<PlayedGame>)
    ensures forall p :: p in r <==> exists x :: x in owned && x.played && p == PlayedGame(x.game, x.rating)
  {
    if owned == [] then []
    else
      var rest := PlayedGames(owned[1..]);
      assert forall x :: x in owned <==> x == owned[0] || x in owned[1..];
      if owned[0].played then [PlayedGame(owned[0].game, owned[0].rating)] + rest else rest
  }

  /** PlayedGames has exactly one entry per played record, in store order. */
  lemma {:induction false} PlayedGamesSelects(owned: seq<UserGame>)
    ensures exists idx :: Picks(PlayedGames(owned), owned, IsPlayed, PlayedEntry, idx)
  {
    if owned == [] {
      assert Picks(PlayedGames(owned), owned, IsPlayed, PlayedEntry, []);
    } else {
      PlayedGamesSelects(owned[1..]);
      var idx :| Picks(PlayedGames(owned[1..]), owned[1..], IsPlayed, PlayedEntry, idx);
      assert [owned[0]] + owned[1..] == owned;
      if IsPlayed(owned[0]) {
        assert PlayedGames(owned) == [PlayedEntry(owned[0])] + PlayedGames(owned[1..]);
        PicksConsKept(owned[0], owned[1..], PlayedGames(owned[1..]), IsPlayed, PlayedEntry, idx);
        assert Picks(PlayedGames(owned), owned, IsPlayed, PlayedEntry, [0] + Shift(idx));
      } else {
        PicksConsSkipped(owned[0], owned[1..], PlayedGames(owned[1..]), IsPlayed, PlayedEntry, idx);
        assert Picks(PlayedGames(owned), owned, IsPlayed, PlayedEntry, Shift(idx));
      }
    }
  }

  /** The want-to-play test on records. */
  function IsWanted(x: UserGame): bool { x.wantToPlay }

  /** A record's entry in the want-to-play list. */
  function WantedEntry(x: UserGame): WantedGame { WantedGame(x.game) }

  /** The want-to-play list: one entry per want-to-play record, without a rating, in store order. */
  function WantedGames(owned: seq<UserGame>): (r: seq<WantedGame>)
    ensures forall w :: w in r <==> exists x :: x in owned && x.wantToPlay && w == WantedGame(x.game)
  {
    if owned == [] then []
    else
      var rest := WantedGames(owned[1..]);
      assert forall x :: x in owned <==> x == owned[0] || x in owned[1..];
      if owned[0].wantToPlay then [WantedGame(owned[0].game)] + rest else rest
  }

  /** WantedGames has exactly one entry per want-to-play record, in store order. */
  lemma {:induction false} WantedGamesSelects(owned: seq<UserGame>)
    ensures exists idx :: Picks(WantedGames(owned), owned, IsWanted, WantedEntry, idx)
  {
    if owned == [] {
      assert Picks(WantedGames(owned), owned, IsWanted, WantedEntry, []);
    } else {
      WantedGamesSelects(owned[1..]);
      var idx :| Picks(WantedGames(owned[1..]), owned[1..], IsWanted, WantedEntry, idx);
      assert [owned[0]] + owned[1..] == owned;
      if IsWanted(owned[0]) {
        assert WantedGames(owned) == [WantedEntry(owned[0])] + WantedGames(owned[1..]);
        PicksConsKept(owned[0], owned[1..], WantedGames(owned[1..]), IsWanted, WantedEntry, idx);
        assert Picks(WantedGames(owned), owned, IsWanted, WantedEntry, [0] + Shift(idx));
      } else {
        PicksConsSkipped(owned[0], owned[1..], WantedGames(owned[1..]), IsWanted, WantedEntry, idx);
        assert Picks(WantedGames(owned), owned, IsWanted, WantedEntry, Shift(idx));
      }
    }
  }

  /** The two lists of `GET /user-games`. */
  function Lists(rs: seq<UserGame>, user: Id): UserGamesLists
  {
    var owned := OwnedBy(rs, user);
    UserGamesLists(PlayedGames(owned), WantedGames(owned))
  }

  // ---------------------------------------------------------------------
  // Properties of the table functions
  // ---------------------------------------------------------------------

  lemma FindAppend(rs: seq<UserGame>, r: UserGame, user: Id, game: Id)
    requires Find(rs, user, game).None? && IsFor(r, user, game)
    ensures Find(rs + [r], user, game) == Some(|rs|)
  {
    assert forall j :: 0 <= j < |rs| ==> (rs + [r])[j] == rs[j];
    assert IsFor((rs + [r])[|rs|], user, game);
  }

  lemma FindSaveAt(rs: seq<UserGame>, i: nat, r: UserGame, user: Id, game: Id)
    requires Find(rs, user, game) == Some(i)
    requires r.user == user && r.game == game
    ensures Find(SaveAt(rs, i, r), user, game) == Some(i)
  {
    var rs' := SaveAt(rs, i, r);
    assert IsFor(rs'[i], user, game);
  }

  /**
   * A status request for a pair without a record adds exactly one record,
   * at the end: played iff the status is "played", want-to-play iff it is
   * "to-play", rating 1.
   */
  lemma StatusCreatesOneRecord(rs: seq<UserGame>, user: Id, game: Id, status: string)
    requires Find(rs, user, game).None?
    requires user != "" && game != ""
    ensures AfterStatus(rs, user, game, status) ==
            rs + [UserGame(user, game, 1, status == "played", status == "to-play")]
  {
  }

  /** A status request for a pair that has a record changes only that record's flags. */
  lemma StatusUpdatesInPlace(rs: seq<UserGame>, user: Id, game: Id, status: string)
    requires ValidTable(rs)
    requires Find(rs, user, game).Some?
    ensures var rs' := AfterStatus(rs, user, game, status);
      && |rs'| == |rs|
      && (forall j :: 0 <= j < |rs| && !IsFor(rs[j], user, game) ==> rs'[j] == rs[j])
      && (forall j :: 0 <= j < |rs| && IsFor(rs[j], user, game) ==> rs'[j] == ApplyStatus(rs[j], status))
  {
    var i := Find(rs, user, game).value;
    assert rs[i] in rs;
    forall j | 0 <= j < |rs| && IsFor(rs[j], user, game) ensures j == i {
      SamePairSameIndex(rs, i, j);
    }
  }

  /** Every request keeps the table invariant: the flags are never both set afterwards. */
  lemma AfterStatusValid(rs: seq<UserGame>, user: Id, game: Id, status: string)
    requires ValidTable(rs)
    ensures ValidTable(AfterStatus(rs, user, game, status))
  {
    var rs' := AfterStatus(rs, user, game, status);
    match Find(rs, user, game)
    case None =>
    case Some(i) =>
      assert rs[i] in rs;
      forall r | r in rs' ensures ValidUserGame(r) && Exclusive(r) {
        var k :| 0 <= k < |rs'| && rs'[k] == r;
        if k != i { assert rs[k] in rs; }
      }
  }

  /** A repeated status request leaves the table as the first one left it. */
  lemma {:induction false} AfterStatusIdempotent(rs: seq<UserGame>, user: Id, game: Id, status: string)
    ensures AfterStatus(AfterStatus(rs, user, game, status), user, game, status) ==
            AfterStatus(rs, user, game, status)
  {
    var rs' := AfterStatus(rs, user, game, status);
    match Find(rs, user, game)
    case None =>
      match CreateUserGame(NewRecordDraft(user, game, status)) {
        case Success(r) =>
          FindAppend(rs, r, user, game);
          assert ApplyStatus(r, status) == r;
          assert rs'[|rs| := r] == rs';
        case Failure(_) =>
      }
    case Some(i) =>
      var r := ApplyStatus(rs[i], status);
      FindSaveAt(rs, i, r, user, game);
      if Save(r).Success? {
        ApplyStatusIdempotent(rs[i], status);
        assert rs'[i := r] == rs';
      }
  }

  /** After a status request the pair has exactly one record, and its flags match the status. */
  lemma StatusResult(rs: seq<UserGame>, user: Id, game: Id, status: string)
    requires ValidTable(rs) && user != "" && game != ""
    ensures var rs' := AfterStatus(rs, user, game, status);
      && Find(rs', user, game).Some?
      && (status == "played" ==> rs'[Find(rs', user, game).value].played &&
                                 !rs'[Find(rs', user, game).value].wantToPlay)
      && (status == "to-play" ==> !rs'[Find(rs', user, game).value].played &&
                                  rs'[Find(rs', user, game).value].wantToPlay)
  {
    var rs' := AfterStatus(rs, user, game, status);
    match Find(rs, user, game)
    case None =>
      FindAppend(rs, UserGame(user, game, 1, status == "played", status == "to-play"), user, game);
    case Some(i) =>
      assert rs[i] in rs;
      FindSaveAt(rs, i, ApplyStatus(rs[i], status), user, game);
  }

  /** Mark-played does what a "played" status request does to an existing record. */
  lemma MarkPlayedIsPlayedStatus(rs: seq<UserGame>, user: Id, game: Id)
    ensures AfterMarkPlayed(rs, user, game) ==
            if Find(rs, user, game).Some? then AfterStatus(rs, user, game, "played") else rs
  {
  }

  /** Rating updates keep ratings within the schema's bounds: an out-of-range rating is not stored. */
  lemma AfterRatingValid(rs: seq<UserGame>, user: Id, game: Id, rating: int)
    requires ValidTable(rs)
    ensures ValidTable(AfterRating(rs, user, game, rating))
    ensures !RatingInRange(rating) ==> AfterRating(rs, user, game, rating) == rs
    ensures RatingInRange(rating) && Find(rs, user, game).Some? ==>
            AfterRating(rs, user, game, rating)[Find(rs, user, game).value].rating == rating
  {
    match Find(rs, user, game)
    case None =>
    case Some(i) =>
      var rs' := AfterRating(rs, user, game, rating);
      assert rs[i] in rs;
      forall r | r in rs' ensures ValidUserGame(r) && Exclusive(r) {
        var k :| 0 <= k < |rs'| && rs'[k] == r;
        if k != i { assert rs[k] in rs; }
      }
  }

  lemma AfterMarkPlayedValid(rs: seq<UserGame>, user: Id, game: Id)
    requires ValidTable(rs)
    ensures ValidTable(AfterMarkPlayed(rs, user, game))
  {
    MarkPlayedIsPlayedStatus(rs, user, game);
    AfterStatusValid(rs, user, game, "played");
  }

  lemma RemoveAtIndex(rs: seq<UserGame>, i: nat, k: int)
    requires i < |rs| && 0 <= k < |rs| - 1
    ensures (rs[..i] + rs[i + 1..])[k] == rs[if k < i then k else k + 1]
  {
  }

  lemma RemoveAtUnique(rs: seq<UserGame>, i: nat)
    requires UniquePairs(rs) && i < |rs|
    ensures UniquePairs(rs[..i] + rs[i + 1..])
    ensures forall y :: y in rs[..i] + rs[i + 1..] ==> !IsFor(y, rs[i].user, rs[i].game)
  {
    var r := rs[..i] + rs[i + 1..];
    forall a, b | 0 <= a < b < |r| ensures !IsFor(r[b], r[a].user, r[a].game) {
      RemoveAtIndex(rs, i, a);
      RemoveAtIndex(rs, i, b);
    }
    forall k | 0 <= k < |r| ensures !IsFor(r[k], rs[i].user, rs[i].game) {
      RemoveAtIndex(rs, i, k);
      var k' := if k < i then k else k + 1;
      if IsFor(rs[k'], rs[i].user, rs[i].game) {
        SamePairSameIndex(rs, i, k');
      }
    }
  }

  /** Removal deletes exactly the pair's record and keeps the others in order. */
  lemma RemoveDeletesExactlyOne(rs: seq<UserGame>, user: Id, game: Id)
    requires ValidTable(rs)
    requires Find(rs, user, game).Some?
    ensures var rs' := AfterRemove(rs, user, game);
      && |rs'| == |rs| - 1
      && multiset(rs') + multiset{rs[Find(rs, user, game).value]} == multiset(rs)
      && Find(rs', user, game).None?
      && ValidTable(rs')
  {
    var i := Find(rs, user, game).value;
    var rs' := AfterRemove(rs, user, game);
    assert rs == rs[..i] + [rs[i]] + rs[i + 1..];
    assert rs' == rs[..i] + rs[i + 1..];
    RemoveAtUnique(rs, i);
    assert multiset(rs') + multiset{rs[i]} == multiset(rs);
    forall r | r in rs' ensures r in rs {
      assert r in multiset(rs');
    }
  }

  /** Requests on a pair without a record leave the table unchanged. */
  lemma NotFoundLeavesTable(rs: seq<UserGame>, user: Id, game: Id, rating: int)
    requires Find(rs, user, game).None?
    ensures AfterRating(rs, user, game, rating) == rs
    ensures AfterMarkPlayed(rs, user, game) == rs
    ensures AfterRemove(rs, user, game) == rs
  {
  }

  /** Deleting an account keeps the table invariant. */
  lemma {:induction false} WithoutUserValid(rs: seq<UserGame>, user: Id)
    requires ValidTable(rs)
    ensures ValidTable(WithoutUser(rs, user))
    decreases |rs|
  {
    if rs != [] {
      UniqueTail(rs);
      assert forall r :: r in rs[1..] ==> r in rs;
      WithoutUserValid(rs[1..], user);
      var t := WithoutUser(rs[1..], user);
      if rs[0].user != user {
        assert forall y :: y in t ==> y in rs[1..];
        UniqueCons(rs[0], t);
        assert rs[0] in rs;
      }
    }
  }

  /** Deleting an account removes all of the user's records and keeps everyone else's, in order. */
  lemma {:induction false} WithoutUserOwned(rs: seq<UserGame>, user: Id, other: Id)
    ensures OwnedBy(WithoutUser(rs, user), user) == []
    ensures other != user ==> OwnedBy(WithoutUser(rs, user), other) == OwnedBy(rs, other)
    decreases |rs|
  {
    if rs != [] {
      WithoutUserOwned(rs[1..], user, other);
      var t := WithoutUser(rs[1..], user);
      if rs[0].user != user {
        assert ([rs[0]] + t)[1..] == t;
      }
    }
  }

  /** Under the invariant no game is on both lists. */
  lemma ListsDisjoint(rs: seq<UserGame>, user: Id, game: Id, rating: int)
    requires ValidTable(rs)
    requires PlayedGame(game, rating) in Lists(rs, user).playedGames
    ensures WantedGame(game) !in Lists(rs, user).wantToPlayGames
  {
    var owned := OwnedBy(rs, user);
    var x :| x in owned && x.played && PlayedGame(game, rating) == PlayedGame(x.game, x.rating);
    var i :| 0 <= i < |rs| && rs[i] == x;
    forall y | y in owned && y.game == game ensures !y.wantToPlay {
      var j :| 0 <= j < |rs| && rs[j] == y;
      SamePairSameIndex(rs, i, j);
    }
  }

  // ---------------------------------------------------------------------
  // The request handlers over the stored records
  // ---------------------------------------------------------------------

  /** What a handler answers: success with its message, not found, or a server error. */
  datatype Response = Ok(message: string) | NotFound | ServerError

  class BacklogStore {
    var records: seq<UserGame>

    ghost predicate Valid()
      reads this
    {
      ValidTable(records)
    }

    constructor ()
      ensures Valid() && records == []
    {
      records := [];
    }

    /** `POST /user-games`: create the pair's record or change its flags. */
    method SetStatus(user: Id, game: Id, status: string) returns (resp: Response)
      requires Valid()
      modifies this
      ensures Valid()
      ensures records == AfterStatus(old(records), user, game, status)
      ensures old(Find(records, user, game)).None? && user != "" && game != "" ==>
              resp == Ok("Game added as " + status + "!")
      ensures old(Find(records, user, game)).Some? ==> resp == Ok("Game status updated to " + status + "!")
      ensures resp == ServerError <==> old(Find(records, user, game)).None? && (user == "" || game == "")
    {
      AfterStatusValid(records, user, game, status);
      var found := Find(records, user, game);
      if found.None? {
        var created := CreateUserGame(NewRecordDraft(user, game, status));
        if created.Failure? {
          return ServerError;
        }
        records := records + [created.value];
        return Ok("Game added as " + status + "!");
      }
      var i := found.value;
      var userGame := records[i];
      assert userGame in records;
      if status == "played" {
        userGame := userGame.(played := true);
        userGame := userGame.(wantToPlay := false);
      } else if status == "to-play" {
        userGame := userGame.(wantToPlay := true);
        userGame := userGame.(played := false);
      }
      var saved := Save(userGame);
      if saved.Failure? {
        return ServerError;
      }
      records := records[i := userGame];
      resp := Ok("Game status updated to " + status + "!");
    }

    /** `PUT /user-games/:gameId/rating`. */
    method SetRating(user: Id, game: Id, rating: int) returns (resp: Response)
      requires Valid()
      modifies this
      ensures Valid()
      ensures records == AfterRating(old(records), user, game, rating)
      ensures resp == NotFound <==> old(Find(records, user, game)).None?
      ensures resp == ServerError <==> old(Find(records, user, game)).Some? && !RatingInRange(rating)
      ensures resp.Ok? ==> resp == Ok("Rating updated")
    {
      AfterRatingValid(records, user, game, rating);
      var found := Find(records, user, game);
      if found.None? {
        return NotFound;
      }
      var i := found.value;
      assert records[i] in records;
      var userGame := records[i].(rating := rating);
      var saved := Save(userGame);
      if saved.Failure? {
        return ServerError;
      }
      records := records[i := userGame];
      resp := Ok("Rating updated");
    }

    /** `DELETE /user-games/:gameId`. */
    method Remove(user: Id, game: Id) returns (resp: Response)
      requires Valid()
      modifies this
      ensures Valid()
      ensures records == AfterRemove(old(records), user, game)
      ensures resp == NotFound <==> old(Find(records, user, game)).None?
      ensures resp.Ok? ==> resp == Ok("Game removed")
      ensures resp != ServerError
    {
      var found := Find(records, user, game);
      if found.None? {
        return NotFound;
      }
      RemoveDeletesExactlyOne(records, user, game);
      var i := found.value;
      records := records[..i] + records[i + 1..];
      resp := Ok("Game removed");
    }

    /** `PUT /user-games/:gameId/mark-played`. */
    method MarkPlayed(user: Id, game: Id) returns (resp: Response)
      requires Valid()
      modifies this
      ensures Valid()
      ensures records == AfterMarkPlayed(old(records), user, game)
      ensures resp == NotFound <==> old(Find(records, user, game)).None?
      ensures resp.Ok? ==> resp == Ok("Game marked as played and moved to played list")
      ensures resp != ServerError
    {
      AfterMarkPlayedValid(records, user, game);
      var found := Find(records, user, game);
      if found.None? {
        return NotFound;
      }
      var i := found.value;
      assert records[i] in records;
      var userGame := records[i];
      userGame := userGame.(played := true);
      userGame := userGame.(wantToPlay := false);
      var saved := Save(userGame);
      if saved.Failure? {
        return ServerError;
      }
      records := records[i := userGame];
      resp := Ok("Game marked as played and moved to played list");
    }

    /** `DELETE /settings/delete-account`: the user's records go first. */
    method DeleteAccount(user: Id, userExists: bool) returns (resp: Response)
      requires Valid()
      modifies this
      ensures Valid()
      ensures records == if userExists then WithoutUser(old(records), user) else old(records)
      ensures resp == if userExists then Ok("Account deleted successfully!") else NotFound
    {
      if !userExists {
        return NotFound;
      }
      WithoutUserValid(records, user);
      records := WithoutUser(records, user);
      resp := Ok("Account deleted successfully!");
    }

    /** `GET /user-games`: the played and want-to-play lists of an existing user. */
    method GetUserGames(user: Id, userExists: bool) returns (r: Result<UserGamesLists, Response>)
      ensures r.Failure? <==> !userExists
      ensures r.Failure? ==> r.error == NotFound
      ensures r.Success? ==> r.value == Lists(records, user)
    {
      if !userExists {
        return Failure(NotFound);
      }
      var owned := OwnedBy(records, user);
      r := Success(UserGamesLists(PlayedGames(owned), WantedGames(owned)));
    }

    /** `GET /user-added`: every record of the user, as the catalog page reads them. */
    method UserAdded(user: Id) returns (owned: seq<UserGame>)
      ensures owned == OwnedBy(records, user)
    {
      owned := OwnedBy(records, user);
    }
  }
}
