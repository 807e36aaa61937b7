/**
 * The UserGame document: a user's entry for one game, with the two status
 * flags and a rating bounded to 0..10 by the schema.
 */
module UserGameModel {
  import opened Wrappers
  import opened Schema

  const RatingMin: int := 0
  const RatingMax: int := 10
  const DefaultRating: int := 0

  datatype UserGame = UserGame(user: Id, game: Id, rating: int, played: bool, wantToPlay: bool)

  datatype UserGameDraft = UserGameDraft(
    user: Option<Id>,
    game: Option<Id>,
    rating: Option<int>,
    played: Option<bool>,
    wantToPlay: Option<bool>)

  predicate RatingInRange(rating: int)
  {
    RatingMin <= rating <= RatingMax
  }

  /** What the schema's validators accept when a document is saved. */
  predicate ValidUserGame(ug: UserGame)
  {
    ug.user != "" && ug.game != "" && RatingInRange(ug.rating)
  }

  /** Saving a (possibly modified) document: accepted iff it validates. */
  function Save(ug: UserGame): (r: Result<UserGame, ValidationError>)
    ensures r.Success? <==> ValidUserGame(ug)
    ensures r.Success? ==> r.value == ug
    ensures r.Failure? ==>
      && ("user" in r.error.paths <==> ug.user == "")
      && ("game" in r.error.paths <==> ug.game == "")
      && ("rating" in r.error.paths <==> !RatingInRange(ug.rating))
  {
    var bad :=
      (if ug.user != "" then {} else {"user"}) +
      (if ug.game != "" then {} else {"game"}) +
      (if RatingInRange(ug.rating) then {} else {"rating"});
    if bad == {} then Success(ug) else Failure(ValidationError(bad))
  }

  /** Creating a document: defaults (rating 0, both flags false) then validation. */
  function CreateUserGame(d: UserGameDraft): (r: Result<UserGame, ValidationError>)
    ensures r.Success? <==>
      Present(d.user) && Present(d.game) && (d.rating.None? || RatingInRange(d.rating.value))
    ensures r.Success? ==>
      && ValidUserGame(r.value)
      && Some(r.value.user) == d.user && Some(r.value.game) == d.game
      && r.value.rating == (if d.rating.Some? then d.rating.value else DefaultRating)
      && r.value.played == (d.played == Some(true))
      && r.value.wantToPlay == (d.wantToPlay == Some(true))
    ensures r.Failure? ==>
      && ("user" in r.error.paths <==> !Present(d.user))
      && ("game" in r.error.paths <==> !Present(d.game))
      && ("rating" in r.error.paths <==> d.rating.Some? && !RatingInRange(d.rating.value))
  {
    var rating := if d.rating.Some? then d.rating.value else DefaultRating;
    if Present(d.user) && Present(d.game) then
      Save(UserGame(d.user.value, d.game.value, rating,
                    if d.played.Some? then d.played.value else false,
                    if d.wantToPlay.Some? then d.wantToPlay.value else false))
    else
      Failure(ValidationError(
        (if Present(d.user) then {} else {"user"}) +
        (if Present(d.game) then {} else {"game"}) +
        (if RatingInRange(rating) then {} else {"rating"})))
  }

  /** A valid document is stored exactly as given when every field is supplied. */
  lemma CreateUserGameRoundTrip(ug: UserGame)
    requires ValidUserGame(ug)
    ensures CreateUserGame(UserGameDraft(Some(ug.user), Some(ug.game), Some(ug.rating),
                                         Some(ug.played), Some(ug.wantToPlay))) == Success(ug)
  {
  }
}
